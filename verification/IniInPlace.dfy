/** The parser of opencv-test/play-frame/SimpleIni.h as it runs: FindEntry and LoadData work on one
    buffer, and sections, keys and values are pointers into it. */
module IniInPlace {
  import opened Options
  import opened IniText
  import opened IniBuffer
  import opened IniBlocks
  import opened IniComments

  /** A string pointer: an index into the buffer, or -1 for none. */
  type Pointer = int

  function Str(s: seq<char>, p: Pointer): string {
    if 0 <= p <= |s| then CStr(s, p) else ""
  }

  // ---- strings that are not ended yet ----

  /** What the string at p will be once FindEntry has been called at pos: a string that has its NUL is as
      it is, and one that reaches into the text that is left goes on there. */
  function Future(cfg: Config, s: seq<char>, p: Pointer, pos: nat): string {
    if p < 0 || p > pos || pos >= |s| then ""
    else if NulAt(s, p) < pos then CStr(s, p)
    else s[p..pos] + Head(cfg, Left(s, pos))
  }

  /** Between p and q a NUL was written, where Head says, and the text goes on at q. */
  ghost predicate Cut(cfg: Config, s: seq<char>, s': seq<char>, p: nat, q: nat) {
    && |s'| == |s| && p <= q < |s| && s'[..p] == s[..p] && Text(s', q)
    && CStr(s', p) == Head(cfg, Left(s, p)) && (NulAt(s', p) < q || q + 1 == |s|)
  }

  lemma NothingAhead(cfg: Config)
    ensures Head(cfg, []) == []
  {}

  /** Strings from p on through c: the first NUL decides. */
  lemma NulFrom(s: seq<char>, p: nat, c: nat)
    requires p <= c < |s|
    ensures NulAt(s, p) <= NulAt(s, c)
    ensures NulAt(s, p) >= c ==> NulAt(s, p) == NulAt(s, c) && CStr(s, p) == s[p..c] + CStr(s, c)
  {
    var m, n := NulAt(s, p), NulAt(s, c);
    if m >= c {
      assert s[p..n] == s[p..c] + s[c..n];
    }
  }

  /** The first NUL of a string that has none before c and reaches the text there. */
  lemma NulInText(s: seq<char>, p: nat, c: nat)
    requires p <= c && Text(s, c) && NulAt(s, p) >= c
    ensures NulAt(s, p) == |s| - 1 && CStr(s, p) == s[p..|s| - 1]
  {}

  lemma NulKept(s: seq<char>, s': seq<char>, p: nat, c: nat)
    requires |s| == |s'| && p <= c < |s| && s'[..c] == s[..c]
    ensures NulAt(s, p) < c ==> NulAt(s', p) == NulAt(s, p) && CStr(s', p) == CStr(s, p)
    ensures NulAt(s, p) >= c ==> NulAt(s', p) >= c && s'[p..c] == s[p..c]
  {
    assert forall i :: 0 <= i < c ==> s[i] == s[..c][i] && s'[i] == s'[..c][i];
    if NulAt(s, p) < c {
      CStrStable(s, s', p, c);
    }
  }

  /** What can be read now is what was foreseen. */
  lemma FutureNow(cfg: Config, s: seq<char>, s': seq<char>, p: Pointer, c: nat)
    requires |s| == |s'| && c < |s| && p <= c && s'[..c] == s[..c] && CStr(s', c) == Head(cfg, Left(s, c))
    ensures Str(s', p) == Future(cfg, s, p, c)
  {
    hide CStr, NulAt, Head;
    if p >= 0 {
      NulKept(s, s', p, c);
      NulFrom(s', p, c);
    }
  }

  lemma FutureSettled(cfg: Config, s: seq<char>, p: nat, q: nat)
    requires p <= q && Text(s, q) && (NulAt(s, p) < q || q + 1 == |s|)
    ensures Future(cfg, s, p, q) == CStr(s, p)
  {
    hide Head;
    if NulAt(s, p) >= q {
      NulInText(s, p, q);
      NothingAhead(cfg);
      assert Left(s, q) == [] && s[p..q] + [] == CStr(s, p);
    }
  }

  /** After a cut every string is what was foreseen, and stays so. */
  lemma FutureCut(cfg: Config, s: seq<char>, s': seq<char>, p: Pointer, c: nat, q: nat)
    requires Cut(cfg, s, s', c, q) && p <= c
    ensures Future(cfg, s', p, q) == Future(cfg, s, p, c) && (p >= 0 ==> NulAt(s', p) < q || q + 1 == |s|)
  {
    hide CStr, NulAt, Head;
    FutureNow(cfg, s, s', p, c);
    if p >= 0 {
      NulFrom(s', p, c);
      FutureSettled(cfg, s', p, q);
    }
  }

  /** Text that is skipped does not change what is foreseen. */
  lemma FutureSkip(cfg: Config, s: seq<char>, p: Pointer, c: nat, q: nat)
    requires Text(s, c) && p <= c <= q < |s| && Head(cfg, Left(s, c)) == s[c..q] + Head(cfg, Left(s, q))
    ensures Future(cfg, s, p, q) == Future(cfg, s, p, c)
  {
    hide Head;
    if p >= 0 && NulAt(s, p) >= c {
      NulInText(s, p, c);
      assert s[p..q] == s[p..c] + s[c..q];
    }
  }

  /** Two cuts, or a skip and a cut, from pos on. */
  lemma CutBack(cfg: Config, s: seq<char>, b: seq<char>, b': seq<char>, pos: nat, p: nat, q: nat)
    requires |s| == |b| && pos < |s| && pos <= p && b[..pos] == s[..pos] && Cut(cfg, b, b', p, q)
    requires Future(cfg, b, pos, p) == Head(cfg, Left(s, pos))
    ensures Cut(cfg, s, b', pos, q)
  {
    hide CStr, NulAt, Head;
    FutureCut(cfg, b, b', pos, p, q);
    FutureNow(cfg, b, b', pos, p);
    SamePrefix(b', b, pos, p);
  }

  // ---- values ----

  /** A NUL at t ends the string at v there and leaves the text from q on alone. */
  lemma CutAt(s: seq<char>, s': seq<char>, v: nat, t: nat, q: nat)
    requires v <= t < |s| && s' == s[t := NUL] && Text(s, q) && (t < q || q + 1 == |s|)
    requires forall i :: v <= i < t ==> s[i] != NUL
    ensures Text(s', q) && Left(s', q) == Left(s, q) && s'[..t] == s[..t]
    ensures NulAt(s', v) == t && CStr(s', v) == s[v..t]
  {
    CStrIs(s', v, t);
    assert s'[v..t] == s[v..t];
  }

  lemma TagAt(s: seq<char>, s': seq<char>, v: nat, t: nat)
    requires v + 3 <= t < |s| && s' == s[t := NUL] && s[v] == s[v + 1] == s[v + 2] == '<'
    requires forall i :: v <= i < t ==> s[i] != NUL
    ensures HasTag(s[v..t]) && NulAt(s', v + 3) == t && CStr(s', v + 3) == s[v..t][3..]
  {
    CStrIs(s', v + 3, t);
    assert s[v..t][..3] == [s[v], s[v + 1], s[v + 2]];
    assert s'[v + 3..t] == s[v..t][3..];
  }

  lemma NoTagAt(s: seq<char>, v: nat, t: nat)
    requires v <= t < |s|
    requires t < v + 3 || s[v] != '<' || s[v + 1] != '<' || s[v + 2] != '<'
    ensures !HasTag(s[v..t])
  {}

  /** Find the trimmed rest of the line after w, end it with a NUL, and step to the next line. */
  method CutLine(a: array<char>, w: nat) returns (v: nat, t: nat, q: nat)
    requires Text(a[..], w + 1)
    modifies a
    ensures w < v <= t < a.Length && t <= q && (t < q || q + 1 == a.Length)
    ensures Text(old(a[..]), v) && Text(old(a[..]), q) && a[..] == old(a[..])[t := NUL]
    ensures var v0 := DropBlanks(old(Left(a[..], w + 1)));
      old(a[..])[v..t] == TrimRight(Take(AtNewLine, v0)) && Left(old(a[..]), q) == SkipNewLine(Drop(AtNewLine, v0))
  {
    hide Take, Drop, DropBlanks, SkipNewLine, TrimRight;
    ghost var s := a[..];
    v := SkipBlanks(a, w + 1);
    var e := Scan(AtNewLine, a, v);
    q := e;
    if a[e] != NUL {
      q := SkipLineEnd(a, e);
    } else {
      EmptyLeft(s, s, e);
    }
    t := TrimEnd(a, v, e);
    assert s[v..t] == a[v..t] && s[v..e] == a[v..e];
    a[t] := NUL;
  }

  /** `val` and `q` hold the value r and the text behind it, in the part of the buffer from w on. */
  ghost predicate YieldsValue(cfg: Config, s: seq<char>, r: Lines, w: nat, ok: bool, q: nat, val: nat) {
    && ok == !r.NoLines? && (r.Endless? ==> |r.rest| <= |r.val|)
    && (ok ==> w < val <= q < |s| && Text(s, q) && Left(s, q) == r.rest && Future(cfg, s, val, q) == Ended(cfg, r))
    && (ok ==> Str(s, val) == r.val)
  }

  /** The value that follows an equals sign at w. */
  method ReadValueAt(cfg: Config, a: array<char>, w: nat) returns (ok: bool, q: nat, val: nat)
    requires Text(a[..], w + 1)
    modifies a
    ensures a[..w + 1] == old(a[..w + 1])
    ensures YieldsValue(cfg, a[..], ReadValue(cfg, old(Left(a[..], w + 1))), w, ok, q, val)
  {
    hide CStr, NulAt, LoadLines, Take, Drop, DropBlanks, SkipNewLine, TrimRight, Text, Left, YieldsValue, ValueOf;
    ghost var s := a[..];
    var v, t, q0 := CutLine(a, w);
    TextBound(s, w + 1);
    TextBound(s, q0);
    TextHasNoNul(s, v);
    assert ReadValue(cfg, Left(s, w + 1)) == ValueOf(cfg, s[v..t], Left(s, q0));
    hide ReadValue;
    CutPrefix(s, a[..], w + 1, t);
    CutAt(s, a[..], v, t, q0);
    if cfg.multiLine && a[v] == '<' && a[v + 1] == '<' && a[v + 2] == '<' {
      val := q0;
      ok, q := TaggedValue(cfg, a, w, v, t, q0, s);
    } else {
      if cfg.multiLine {
        NoTagAt(s, v, t);
      }
      ok, q := true, q0;
      val := QuotedValue(cfg, a, w, v, t, q0, s);
    }
  }

  lemma CutPrefix(s: seq<char>, s': seq<char>, w: nat, t: nat)
    requires w <= t < |s| && s' == s[t := NUL]
    ensures s'[..w] == s[..w]
  {}

  /** Only a tag on the first line leaves a value without an end: the whole text. */
  lemma {:induction false} EndedLines(cfg: Config, s: string, tag: string, acc: string, moved: bool)
    requires acc != []
    ensures !LoadLines(cfg, s, tag, acc, moved).Endless?
    decreases |s|
  {
    hide Same, Take, Drop, TrimTail, SkipNewLine;
    var line, z := Take(AtNewLine, s), Drop(AtNewLine, s);
    if z != [] {
      EndedLines(cfg, SkipNewLine(z), tag, acc + line + "\n", moved || (z[0] == '\r' && |z| > 1 && z[1] == '\n'));
    }
  }

  lemma EndlessIsAll(cfg: Config, s: string, tag: string)
    ensures var r := LoadLines(cfg, s, tag, "", false); r.Endless? ==> r.val == s
  {
    hide Same, TrimTail, SkipNewLine;
    var line, z := Take(AtNewLine, s), Drop(AtNewLine, s);
    if z != [] {
      EndedLines(cfg, SkipNewLine(z), tag, "" + line + "\n", false || (z[0] == '\r' && |z| > 1 && z[1] == '\n'));
    }
  }

  /** A loaded block as a value: ended, or open to the text behind it. */
  lemma BlockFuture(cfg: Config, s: seq<char>, val: nat, q: nat, r: Lines)
    requires !r.NoLines? && val <= q && Text(s, q) && Left(s, q) == r.rest && CStr(s, val) == r.val
    requires r.Lines? ==> NulAt(s, val) < q || q + 1 == |s|
    requires r.Endless? ==> |r.val| == |s| - 1 - val
    ensures (r.Endless? ==> |r.rest| <= |r.val|) && Future(cfg, s, val, q) == Ended(cfg, r)
  {
    hide Head;
    if r.Lines? {
      FutureSettled(cfg, s, val, q);
    } else {
      assert NulAt(s, val) == |s| - 1;
      assert Before(r.val, r.rest) == s[val..q];
      if q + 1 == |s| {
        NothingAhead(cfg);
      }
    }
  }

  /** The line that starts with a tag opens a block. */
  method TaggedValue(cfg: Config, a: array<char>, w: nat, v: nat, t: nat, q0: nat, ghost s: seq<char>) returns (ok: bool, q: nat)
    requires w < v <= t < a.Length && t <= q0 && (t < q0 || q0 + 1 == a.Length) && |s| == a.Length && a[..] == s[t := NUL]
    requires Text(a[..], q0) && Left(a[..], q0) == Left(s, q0) && forall i :: v <= i < t ==> s[i] != NUL
    requires cfg.multiLine && v + 3 <= t && s[v] == s[v + 1] == s[v + 2] == '<'
    modifies a
    ensures a[..w + 1] == old(a[..w + 1])
    ensures YieldsValue(cfg, a[..], ValueOf(cfg, s[v..t], Left(s, q0)), w, ok, q, q0)
  {
    hide CStr, NulAt, LoadLines, Text, Left, Ended, Future;
    ghost var b := a[..];
    TagAt(s, b, v, t);
    TextBound(b, q0);
    ghost var r := LoadLines(cfg, Left(b, q0), CStr(b, v + 3), "", false);
    EndlessIsAll(cfg, Left(b, q0), CStr(b, v + 3));
    LeftLength(b, q0);
    ok, q := LoadBlock(cfg, a, q0, v + 3);
    SamePrefix(a[..], b, w + 1, q0 - 1);
    if ok {
      TextBound(a[..], q);
      BlockFuture(cfg, a[..], q0, q, r);
    }
    EndlessRest(cfg, Left(b, q0), CStr(b, v + 3));
  }

  lemma EndlessRest(cfg: Config, s: string, tag: string)
    ensures var r := LoadLines(cfg, s, tag, "", false); r.Endless? ==> |r.rest| <= |r.val|
  {}

  lemma LeftLength(s: seq<char>, q: nat)
    requires q < |s|
    ensures |Left(s, q)| == |s| - 1 - q
  {}

  lemma Inside(s: seq<char>, b: seq<char>, v: nat, t: nat)
    requires v + 2 <= t < |s| && b == s[t := NUL]
    ensures b[v + 1..t - 1] == s[v..t][1..t - v - 1]
  {
    var x, y := s[v..t], b[v + 1..t - 1];
    assert forall i :: 0 <= i < |y| ==> y[i] == s[v + 1 + i] == x[1 + i];
  }

  /** Any other line is the value itself, without its quotes if it has them and they are to be parsed. */
  method QuotedValue(cfg: Config, a: array<char>, w: nat, v: nat, t: nat, q: nat, ghost s: seq<char>) returns (val: nat)
    requires w < v <= t < a.Length && t <= q && (t < q || q + 1 == a.Length) && |s| == a.Length && a[..] == s[t := NUL]
    requires Text(a[..], q) && Left(a[..], q) == Left(s, q) && forall i :: v <= i < t ==> s[i] != NUL
    requires CStr(a[..], v) == s[v..t] && NulAt(a[..], v) == t
    requires !(cfg.multiLine && HasTag(s[v..t]))
    modifies a
    ensures a[..w + 1] == old(a[..w + 1])
    ensures YieldsValue(cfg, a[..], ValueOf(cfg, s[v..t], Left(s, q)), w, true, q, val)
  {
    hide CStr, NulAt, LoadLines, Text, Left, Future;
    ghost var b := a[..];
    TextBound(b, q);
    val := v;
    if cfg.quotes && t > v + 1 && a[v] == '"' && a[t - 1] == '"' {
      a[t - 1] := NUL;
      val := v + 1;
      CutPrefix(b, a[..], w + 1, t - 1);
      CutAt(b, a[..], v + 1, t - 1, q);
      Inside(s, b, v, t);
    }
    FutureSettled(cfg, a[..], val, q);
  }

  lemma TextHasNoNul(s: seq<char>, v: nat)
    requires Text(s, v)
    ensures v < |s| && forall i :: v <= i < |s| - 1 ==> s[i] != NUL
  {}

  lemma TextBound(s: seq<char>, q: nat)
    requires Text(s, q)
    ensures q < |s|
  {}

  // ---- names and keys ----

  /** The C string at p, no NUL being between p and u, from the one at u. */
  lemma CStrBack(s: seq<char>, p: nat, u: nat)
    requires p <= u < |s| && forall i :: p <= i < u ==> s[i] != NUL
    ensures NulAt(s, p) == NulAt(s, u) && CStr(s, p) == s[p..u] + CStr(s, u)
  {
    NulFrom(s, p, u);
  }

  /** A closed section header whose name begins at u and whose bracket is at w. */
  method CutHeader(a: array<char>, u: nat, w: nat) returns (q: nat)
    requires Text(a[..], u) && u <= w && w + 1 < a.Length
    modifies a
    ensures a[..u] == old(a[..u]) && w < q && Text(a[..], q)
    ensures Left(a[..], q) == Drop(AtNewLine, old(Left(a[..], w + 1)))
    ensures CStr(a[..], u) == TrimRight(old(a[u..w])) && NulAt(a[..], u) < q
  {
    hide Take, Drop, TrimRight, CStr, NulAt;
    ghost var s := a[..];
    var t := TrimEnd(a, u, w);
    assert s[u..t] == a[u..t];
    a[t] := NUL;
    CutAt(s, a[..], u, t, w + 1);
    SamePrefix(a[..], s, u, t);
    q := Scan(AtNewLine, a, w + 1);
  }

  /** A key name from p to its end w, ended at its trimmed end t. */
  method CutKey(a: array<char>, p: nat, w: nat) returns (t: nat)
    requires Text(a[..], p) && p < w < a.Length && !IsSpace(a[p])
    modifies a
    ensures p < t <= w && a[..] == old(a[..])[t := NUL] && old(a[..])[p..t] == TrimRight(old(a[p..w]))
  {
    ghost var s := a[..];
    t := TrimEnd(a, p, w);
    TrimKeepsFirst(a[p..w]);
    assert s[p..t] == a[p..t];
    a[t] := NUL;
  }

  lemma {:induction false} TrimKeepsFirst(s: string)
    requires s != [] && !IsSpace(s[0])
    ensures TrimRight(s) != []
  {
    if IsSpace(s[|s| - 1]) {
      TrimKeepsFirst(s[..|s| - 1]);
    }
  }

  /** A key with an equals sign at w: the name is cut off, and the value is read. */
  method KeyAndValue(cfg: Config, a: array<char>, p: nat, w: nat) returns (ok: bool, q: nat, val: nat)
    requires Text(a[..], p) && p < w && w + 1 < a.Length && !IsSpace(a[p])
    modifies a
    ensures a[..p] == old(a[..p]) && CStr(a[..], p) == TrimRight(old(a[p..w])) && NulAt(a[..], p) <= w
    ensures YieldsValue(cfg, a[..], ReadValue(cfg, old(Left(a[..], w + 1))), w, ok, q, val)
  {
    hide TrimRight, CStr, NulAt, ReadValue, YieldsValue;
    ghost var s := a[..];
    var t := CutKey(a, p, w);
    TextHasNoNul(s, p);
    CutAt(s, a[..], p, t, w + 1);
    ghost var b := a[..];
    SamePrefix(b, s, p, t);
    ok, q, val := ReadValueAt(cfg, a, w);
    SamePrefix(a[..], b, p, w + 1);
    NulKept(b, a[..], p, w + 1);
  }

  /** A key alone on its line: the name is cut off, and the value pointer is left as it was. */
  method KeyAlone(a: array<char>, p: nat, w: nat) returns (q: nat)
    requires Text(a[..], p) && p < w < a.Length && !IsSpace(a[p])
    modifies a
    ensures a[..p] == old(a[..p]) && CStr(a[..], p) == TrimRight(old(a[p..w]))
    ensures p < q && Text(a[..], q) && Left(a[..], q) == SkipNewLine(old(Left(a[..], w)))
    ensures NulAt(a[..], p) < q || q + 1 == a.Length
  {
    hide TrimRight, CStr, NulAt, SkipNewLine;
    ghost var s := a[..];
    TextHasNoNul(s, p);
    q := w;
    if a[w] != NUL {
      q := SkipLineEnd(a, w);
    } else {
      EmptyLeft(s, s, w);
    }
    var t := CutKey(a, p, w);
    CutAt(s, a[..], p, t, q);
    SamePrefix(a[..], s, p, t);
  }

  // ---- the cases of FindEntry at a visible character ----

  lemma SpacesCase(cfg: Config, s: string, section: string, v: string)
    ensures FindEntry(cfg, s, section, v) == FindEntry(cfg, DropSpaces(s), section, v)
    ensures DropSpaces(s) == [] ==> FindEntry(cfg, s, section, v) == None
  {
    hide Take, Drop, TrimRight, SkipNewLine, ReadValue, CommentRun, Head;
    assert DropSpaces(DropSpaces(s)) == DropSpaces(s);
  }

  lemma {:induction false} SpacesSuffix(s: string)
    ensures DropSpaces(s) == s[|s| - |DropSpaces(s)|..]
  {
    if s != [] && IsSpace(s[0]) {
      SpacesSuffix(s[1..]);
    }
  }

  lemma BeforeTwice(s: string, t: string, x: string, y: string)
    requires |x| <= |t| <= |s| && t == s[|s| - |t|..]
    ensures Before(s, x) + y == Before(s, t) + (Before(t, x) + y)
  {}

  lemma SpacesHead(cfg: Config, s: string)
    ensures Head(cfg, s) == Before(s, DropSpaces(s)) + Head(cfg, DropSpaces(s))
  {
    hide Take, Drop, TrimRight, CommentRun, Before;
    var t := DropSpaces(s);
    SpacesSuffix(s);
    assert DropSpaces(t) == t;
    if t == [] {
      BeforeNothing(s);
    } else if IsComment(t[0]) {
      BeforeTwice(s, t, t, CommentRun(t, "", true).text);
    } else if t[0] == '[' {
      var u := DropSpaces(t[1..]);
      var w := Drop(AtBracket, u);
      DropShortens(AtBracket, u);
      BeforeTwice(s, t, u, TrimRight(Take(AtBracket, u)));
      BeforeTwice(s, t, w, Head(cfg, w));
    } else {
      var w := Drop(AtEquals, t);
      DropShortens(AtEquals, t);
      DropShortens(AtNewLine, w);
      BeforeTwice(s, t, w, Head(cfg, w));
      BeforeTwice(s, t, Drop(AtNewLine, w), Head(cfg, Drop(AtNewLine, w)));
      BeforeTwice(s, t, t, TrimRight(Take(AtEquals, t)));
    }
  }

  lemma DropShortens(k: Stop, s: string)
    ensures |Drop(k, s)| <= |s|
  {}

  lemma BeforeNothing(s: string)
    ensures Before(s, []) == s && forall y :: Before(s, []) + y == s + y
  {}

  lemma BeforeAll(s: string, y: string)
    ensures Before(s, s) + y == y
  {}

  lemma CommentCase(cfg: Config, t: string, section: string, v: string)
    requires t != [] && IsComment(t[0])
    ensures FindEntry(cfg, t, section, v) == FindEntry(cfg, CommentRun(t, "", true).rest, section, v)
    ensures Head(cfg, t) == CommentRun(t, "", true).text
  {
    hide CommentRun;
    BeforeAll(t, CommentRun(t, "", true).text);
  }

  lemma BracketCase(cfg: Config, t: string, section: string, v: string)
    requires t != [] && t[0] == '['
    ensures var u := DropSpaces(t[1..]);
      var w := Drop(AtBracket, u);
      if w == [] || w[0] != ']' then
        && |w| <= |u| < |t| && Head(cfg, t) == Before(t, w) + Head(cfg, w)
        && FindEntry(cfg, t, section, v) == FindEntry(cfg, w, Before(u, w) + Head(cfg, w), v)
      else
        && |u| < |t| && Head(cfg, t) == Before(t, u) + TrimRight(Take(AtBracket, u))
        && FindEntry(cfg, t, section, v)
             == Some(Entry(TrimRight(Take(AtBracket, u)), None, "", Drop(AtNewLine, w[1..]), ""))
  {
    hide Before, TrimRight, Take, CommentRun;
    assert DropSpaces(t) == t;
  }

  lemma KeyCase(cfg: Config, t: string, section: string, v: string)
    requires t != [] && !IsSpace(t[0]) && !IsComment(t[0]) && t[0] != '['
    ensures var w := Drop(AtEquals, t);
      var key := TrimRight(Take(AtEquals, t));
      FindEntry(cfg, t, section, v) ==
        if w == [] || w[0] != '=' then
          (if !cfg.keyOnly then FindEntry(cfg, w, section, v)
           else Some(Entry(section, Some(key), v, SkipNewLine(w), v)))
        else if t[0] == '=' then FindEntry(cfg, Drop(AtNewLine, w), section, v)
        else
          var r := ReadValue(cfg, w[1..]);
          if r.NoLines? then None else Some(Entry(section, Some(key), Ended(cfg, r), r.rest, r.val))
  {
    hide ReadValue, TrimRight, Take, SkipNewLine, Head, CommentRun, Ended;
    assert DropSpaces(t) == t;
    hide DropSpaces, Drop;
  }

  lemma KeyHead(cfg: Config, t: string)
    requires t != [] && !IsSpace(t[0]) && !IsComment(t[0]) && t[0] != '['
    ensures var w := Drop(AtEquals, t);
      if (w == [] || w[0] != '=') && !cfg.keyOnly then |w| <= |t| && Head(cfg, t) == Before(t, w) + Head(cfg, w)
      else if t[0] == '=' then
        |Drop(AtNewLine, w)| <= |t| && Head(cfg, t) == Before(t, Drop(AtNewLine, w)) + Head(cfg, Drop(AtNewLine, w))
      else Head(cfg, t) == TrimRight(Take(AtEquals, t))
  {
    hide Before, TrimRight, Take, CommentRun;
    assert DropSpaces(t) == t;
    BeforeAll(t, TrimRight(Take(AtEquals, t)));
  }

  lemma BeforeAt(s: seq<char>, p: nat, q: nat)
    requires p <= q < |s|
    ensures |Left(s, q)| <= |Left(s, p)| && Before(Left(s, p), Left(s, q)) == s[p..q]
  {}

  // ---- FindEntry ----

  /** What FindEntry hands back: pointers whose strings are, or will be, the entry's, and the position
      behind it. */
  ghost predicate Delivers(cfg: Config, s: seq<char>, e: Entry, q: nat, sec: Pointer, key: Pointer, val: Pointer) {
    && Text(s, q) && Left(s, q) == e.rest && sec <= q && key <= q && val <= q
    && Future(cfg, s, sec, q) == e.section && Settled(s, sec, q)
    && (e.key.None? <==> key < 0) && (e.key.Some? ==> Future(cfg, s, key, q) == e.key.value) && Settled(s, key, q)
    && Future(cfg, s, val, q) == e.val && Str(s, val) == e.copy
  }

  /** The string at p has its end. */
  ghost predicate Settled(s: seq<char>, p: Pointer, pos: nat) {
    p <= pos < |s| && (p >= 0 ==> NulAt(s, p) < pos || pos + 1 == |s|)
  }

  /** A key alone on its line, as an entry. */
  method BareEntry(cfg: Config, a: array<char>, p: nat, w: nat, sec: Pointer, val: Pointer) returns (q: nat)
    requires Text(a[..], p) && p < w < a.Length && !IsSpace(a[p]) && sec <= p && val <= p
    requires Head(cfg, Left(a[..], p)) == TrimRight(a[p..w])
    modifies a
    ensures p < q && Cut(cfg, old(a[..]), a[..], p, q) && CStr(a[..], p) == Head(cfg, old(Left(a[..], p)))
    ensures a[..p] == old(a[..p])
    ensures Delivers(cfg, a[..], Entry(old(Future(cfg, a[..], sec, p)), Some(TrimRight(old(a[p..w]))),
                                       old(Future(cfg, a[..], val, p)), SkipNewLine(old(Left(a[..], w))),
                                       old(Future(cfg, a[..], val, p))), q, sec, p, val)
  {
    hide TrimRight, CStr, NulAt, SkipNewLine, Head, Future;
    ghost var s := a[..];
    q := KeyAlone(a, p, w);
    assert Cut(cfg, s, a[..], p, q);
    Delivered(cfg, s, a[..], p, q, sec);
    FutureCut(cfg, s, a[..], val, p, q);
    FutureNow(cfg, s, a[..], val, p);
  }

  /** A key and its value, as an entry. */
  method ValueEntry(cfg: Config, a: array<char>, p: nat, w: nat, sec: Pointer) returns (found: bool, q: nat, val: Pointer)
    requires Text(a[..], p) && p < w && w + 1 < a.Length && !IsSpace(a[p]) && sec <= p
    requires Head(cfg, Left(a[..], p)) == TrimRight(a[p..w])
    modifies a
    ensures a[..p] == old(a[..p]) && CStr(a[..], p) == Head(cfg, old(Left(a[..], p)))
    ensures var r := ReadValue(cfg, old(Left(a[..], w + 1)));
      found == !r.NoLines? && (r.Endless? ==> |r.rest| <= |r.val|)
    ensures var r := ReadValue(cfg, old(Left(a[..], w + 1)));
      found ==> p < q && Cut(cfg, old(a[..]), a[..], p, q) && Delivers(
        cfg, a[..], Entry(old(Future(cfg, a[..], sec, p)), Some(TrimRight(old(a[p..w]))), Ended(cfg, r), r.rest, r.val),
        q, sec, p, val)
  {
    hide TrimRight, CStr, NulAt, ReadValue, Head, Future, Ended;
    ghost var s := a[..];
    found, q, val := KeyAndValue(cfg, a, p, w);
    if found {
      assert Cut(cfg, s, a[..], p, q);
      Delivered(cfg, s, a[..], p, q, sec);
    }
  }

  /** A line that does not start a section: a key, or something to be skipped. */
  method KeyTurn(cfg: Config, a: array<char>, p: nat, sec: Pointer, valIn: Pointer, ghost h: string, ghost v0: string)
      returns (done: bool, found: bool, q: nat, val: Pointer)
    requires Text(a[..], p) && p + 1 < a.Length && !IsSpace(a[p]) && !IsComment(a[p]) && a[p] != '['
    requires sec <= p && valIn <= p && Future(cfg, a[..], sec, p) == h && Future(cfg, a[..], valIn, p) == v0
    modifies a
    ensures a[..p] == old(a[..p])
    ensures !done ==> p < q && a[..] == old(a[..]) && Text(a[..], q)
    ensures !done ==> Head(cfg, Left(a[..], p)) == a[p..q] + Head(cfg, Left(a[..], q))
    ensures done ==> CStr(a[..], p) == Head(cfg, old(Left(a[..], p)))
    ensures var r := FindEntry(cfg, old(Left(a[..], p)), h, v0);
      if !done then r == FindEntry(cfg, Left(a[..], q), h, v0) else found == r.Some?
    ensures var r := FindEntry(cfg, old(Left(a[..], p)), h, v0);
      done && found ==> p < q && Cut(cfg, old(a[..]), a[..], p, q) && Delivers(cfg, a[..], r.value, q, sec, p, val)
  {
    hide Take, Drop, TrimRight, CStr, NulAt, ReadValue, SkipNewLine, FindEntry, Head, Future, Ended, Delivers, Cut, Before;
    ghost var s := a[..];
    LeftTail(s, p);
    KeyCase(cfg, Left(s, p), h, v0);
    KeyHead(cfg, Left(s, p));
    done, found, val := false, false, valIn;
    var w := Scan(AtEquals, a, p);
    q := w;
    BeforeAt(s, p, w);
    if a[w] != '=' {
      if w + 1 < a.Length {
        LeftTail(s, w);
      } else {
        EmptyLeft(s, s, w);
      }
      if cfg.keyOnly {
        done, found := true, true;
        q := BareEntry(cfg, a, p, w, sec, valIn);
      }
    } else {
      LeftTail(s, w);
      if w == p {
        q := Scan(AtNewLine, a, w);
        BeforeAt(s, p, q);
      } else {
        done := true;
        found, q, val := ValueEntry(cfg, a, p, w, sec);
      }
    }
  }

  /** The two name pointers of a key entry, after the cut that ends its key name. */
  lemma Delivered(cfg: Config, s: seq<char>, s': seq<char>, p: nat, q: nat, sec: Pointer)
    requires Cut(cfg, s, s', p, q) && sec <= p
    ensures Future(cfg, s', sec, q) == Future(cfg, s, sec, p) && Settled(s', sec, q)
    ensures Future(cfg, s', p, q) == CStr(s', p) && Settled(s', p, q)
  {
    hide Head, CStr, NulAt, Future;
    FutureCut(cfg, s, s', sec, p, q);
    FutureSettled(cfg, s', p, q);
  }

  /** A line that starts with a bracket: a header, or one without its closing bracket. */
  method BracketTurn(cfg: Config, a: array<char>, p: nat, ghost h: string, ghost v0: string)
      returns (done: bool, q: nat, u: nat)
    requires Text(a[..], p) && p + 1 < a.Length && a[p] == '['
    modifies a
    ensures a[..p] == old(a[..p]) && p < u <= q < a.Length
    ensures !done ==> a[..] == old(a[..]) && Text(a[..], q)
    ensures !done ==> Head(cfg, Left(a[..], p)) == a[p..q] + Head(cfg, Left(a[..], q))
    ensures var r := FindEntry(cfg, old(Left(a[..], p)), h, v0);
      if !done then r == FindEntry(cfg, Left(a[..], q), a[u..q] + Head(cfg, Left(a[..], q)), v0)
      else r.Some? && Cut(cfg, old(a[..]), a[..], p, q) && Delivers(cfg, a[..], r.value, q, u, -1, -1)
  {
    hide Take, Drop, DropSpaces, TrimRight, CStr, NulAt, FindEntry, Head, Future, Cut, Delivers, Before;
    ghost var s := a[..];
    LeftTail(s, p);
    BracketCase(cfg, Left(s, p), h, v0);
    u := SkipSpaces(a, p + 1);
    var w := Scan(AtBracket, a, u);
    BeforeAt(s, p, w);
    BeforeAt(s, u, w);
    BeforeAt(s, p, u);
    if a[w] != ']' {
      done, q := false, w;
      if w + 1 < a.Length {
        LeftTail(s, w);
      } else {
        EmptyLeft(s, s, w);
      }
    } else {
      done := true;
      LeftTail(s, w);
      q := HeaderEntry(cfg, a, p, u, w);
    }
  }

  /** A closed header, as an entry. */
  method HeaderEntry(cfg: Config, a: array<char>, p: nat, u: nat, w: nat) returns (q: nat)
    requires Text(a[..], p) && p < u <= w && w + 1 < a.Length && Text(a[..], u)
    requires Head(cfg, Left(a[..], p)) == a[p..u] + TrimRight(a[u..w])
    modifies a
    ensures w < q < a.Length && a[..p] == old(a[..p]) && Cut(cfg, old(a[..]), a[..], p, q)
    ensures Delivers(cfg, a[..], Entry(TrimRight(old(a[u..w])), None, "", Drop(AtNewLine, old(Left(a[..], w + 1))), ""),
                     q, u, -1, -1)
  {
    hide Drop, TrimRight, CStr, NulAt, Head, Future;
    ghost var s := a[..];
    q := CutHeader(a, u, w);
    HeaderCut(s, a[..], p, u);
    FutureSettled(cfg, a[..], u, q);
    NoPointer(cfg, a[..], q);
  }

  lemma HeaderCut(s: seq<char>, s': seq<char>, p: nat, u: nat)
    requires |s| == |s'| && p <= u < |s| && Text(s, p) && s'[..u] == s[..u]
    ensures s'[..p] == s[..p] && NulAt(s', p) == NulAt(s', u) && CStr(s', p) == s[p..u] + CStr(s', u)
  {
    SamePrefix(s', s, p, u);
    assert forall i :: p <= i < u ==> s'[i] == s'[..u][i] == s[..u][i] == s[i];
    CStrBack(s', p, u);
  }

  lemma NoPointer(cfg: Config, s: seq<char>, q: nat)
    ensures Future(cfg, s, -1, q) == ""
  {}

  /** Between two lines of FindEntry's loop, at p: what was to be found at pos is to be found here, and all
      strings will be what they were to be. */
  ghost predicate Searching(cfg: Config, s: seq<char>, b: seq<char>, pos: nat, p: nat, sec: Pointer, val: Pointer,
                            h: string, v0: string, target: Option<Entry>) {
    && |b| == |s| && pos <= p < |b| && b[..pos] == s[..pos] && Text(b, p) && sec <= p && val <= pos
    && Future(cfg, b, pos, p) == Head(cfg, Left(s, pos))
    && Future(cfg, b, sec, p) == h && Future(cfg, b, val, p) == v0
    && FindEntry(cfg, Left(b, p), h, v0) == target
  }

  lemma SearchSkips(cfg: Config, s: seq<char>, b: seq<char>, pos: nat, p: nat, q: nat, sec: Pointer, val: Pointer,
                    h: string, v0: string, target: Option<Entry>)
    requires Searching(cfg, s, b, pos, p, sec, val, h, v0, target) && p <= q < |b| && Text(b, q)
    requires Head(cfg, Left(b, p)) == b[p..q] + Head(cfg, Left(b, q))
    requires FindEntry(cfg, Left(b, q), h, v0) == target
    ensures Searching(cfg, s, b, pos, q, sec, val, h, v0, target)
  {
    hide Head, FindEntry, Future;
    FutureSkip(cfg, b, pos, p, q);
    FutureSkip(cfg, b, sec, p, q);
    FutureSkip(cfg, b, val, p, q);
  }

  /** A header without its closing bracket: the section pointer moves to u. */
  lemma SearchDangles(cfg: Config, s: seq<char>, b: seq<char>, pos: nat, p: nat, u: nat, q: nat, sec: Pointer, val: Pointer,
                      h: string, v0: string, target: Option<Entry>)
    requires Searching(cfg, s, b, pos, p, sec, val, h, v0, target) && p < u <= q < |b| && Text(b, q)
    requires Head(cfg, Left(b, p)) == b[p..q] + Head(cfg, Left(b, q))
    requires FindEntry(cfg, Left(b, q), b[u..q] + Head(cfg, Left(b, q)), v0) == target
    ensures Searching(cfg, s, b, pos, q, u, val, b[u..q] + Head(cfg, Left(b, q)), v0, target)
  {
    hide Head, FindEntry;
    FutureSkip(cfg, b, pos, p, q);
    FutureSkip(cfg, b, val, p, q);
    NulInText(b, u, u);
  }

  lemma SearchCuts(cfg: Config, s: seq<char>, b: seq<char>, b': seq<char>, pos: nat, p: nat, q: nat, sec: Pointer, val: Pointer,
                   h: string, v0: string, target: Option<Entry>)
    requires Searching(cfg, s, b, pos, p, sec, val, h, v0, target) && Cut(cfg, b, b', p, q)
    requires FindEntry(cfg, Left(b', q), h, v0) == target
    ensures Searching(cfg, s, b', pos, q, sec, val, h, v0, target)
  {
    hide Head, FindEntry, Future, CStr, NulAt;
    FutureCut(cfg, b, b', pos, p, q);
    FutureCut(cfg, b, b', sec, p, q);
    FutureCut(cfg, b, b', val, p, q);
    SamePrefix(b', b, pos, p);
  }

  /** The search at pos was cut at p: the string that reaches the text at pos reads as foreseen. */
  lemma SearchReads(cfg: Config, s: seq<char>, b: seq<char>, b': seq<char>, pos: nat, p: nat, sec: Pointer, val: Pointer,
                    h: string, v0: string, target: Option<Entry>)
    requires Searching(cfg, s, b, pos, p, sec, val, h, v0, target) && |b'| == |b| && b'[..p] == b[..p]
    requires CStr(b', p) == Head(cfg, Left(b, p))
    ensures b'[..pos] == s[..pos] && CStr(b', pos) == Head(cfg, Left(s, pos))
  {
    hide Head, FindEntry, CStr, NulAt, Future;
    FutureNow(cfg, b, b', pos, p);
    SamePrefix(b', b, pos, p);
  }

  /** FindEntry. For every text it finds what the value-level parser finds, its pointers denote exactly
      those strings, no cell before the position it was called at changes, and the text there is cut
      where Head says. */
  method FindEntryAt(cfg: Config, a: array<char>, pos: nat, secIn: Pointer, valIn: Pointer)
      returns (found: bool, q: nat, sec: Pointer, key: Pointer, val: Pointer)
    requires Text(a[..], pos) && secIn <= pos && valIn <= pos
    modifies a
    ensures a[..pos] == old(a[..pos]) && CStr(a[..], pos) == Head(cfg, old(Left(a[..], pos)))
    ensures var r := FindEntry(cfg, old(Left(a[..], pos)), old(Future(cfg, a[..], secIn, pos)), old(Future(cfg, a[..], valIn, pos)));
      found == r.Some?
      && (found ==> pos < q && Cut(cfg, old(a[..]), a[..], pos, q) && Delivers(cfg, a[..], r.value, q, sec, key, val))
  {
    hide Take, Drop, DropSpaces, CStr, NulAt, FindEntry, Head, Future, Delivers, Cut, Before;
    ghost var s, h, v0 := a[..], Future(cfg, a[..], secIn, pos), Future(cfg, a[..], valIn, pos);
    ghost var target := FindEntry(cfg, Left(s, pos), h, v0);
    var p := pos;
    sec, key, val, found, q := secIn, -1, valIn, false, pos;
    FutureHere(cfg, s, pos);
    while a[p] != NUL
      invariant Searching(cfg, s, a[..], pos, p, sec, valIn, h, v0, target) && !found
      decreases a.Length - p
    {
      ghost var b := a[..];
      SpacesCase(cfg, Left(b, p), h, v0);
      SpacesHead(cfg, Left(b, p));
      var p' := SkipSpaces(a, p);
      BeforeAt(b, p, p');
      SearchSkips(cfg, s, b, pos, p, p', sec, valIn, h, v0, target);
      p := p';
      if a[p] == NUL {
        break;
      }
      LeftTail(b, p);
      if IsComment(a[p]) {
        CommentCase(cfg, Left(b, p), h, v0);
        p' := LoadComment(a, p, true);
        CommentCut(cfg, b, a[..], p, p');
        SearchCuts(cfg, s, b, a[..], pos, p, p', sec, valIn, h, v0, target);
        p := p';
      } else if a[p] == '[' {
        var done, q', u := BracketTurn(cfg, a, p, h, v0);
        if done {
          CutBack(cfg, s, b, a[..], pos, p, q');
          CutReads(cfg, s, a[..], pos, q');
          return true, q', u, -1, -1;
        }
        SearchDangles(cfg, s, b, pos, p, u, q', sec, valIn, h, v0, target);
        h := b[u..q'] + Head(cfg, Left(b, q'));
        sec, p := u, q';
      } else {
        assert !IsSpace(a[p]);
        var done, f, q', v := KeyTurn(cfg, a, p, sec, valIn, h, v0);
        if done {
          SearchReads(cfg, s, b, a[..], pos, p, sec, valIn, h, v0, target);
          if f {
            CutBack(cfg, s, b, a[..], pos, p, q');
          }
          return f, q', sec, p, v;
        }
        SearchSkips(cfg, s, b, pos, p, q', sec, valIn, h, v0, target);
        p := q';
      }
    }
    SearchEnds(cfg, s, a[..], pos, p, sec, valIn, h, v0, target);
  }

  lemma FutureHere(cfg: Config, s: seq<char>, pos: nat)
    requires Text(s, pos)
    ensures Future(cfg, s, pos, pos) == Head(cfg, Left(s, pos))
  {
    hide Head;
    assert s[pos..pos] + Head(cfg, Left(s, pos)) == Head(cfg, Left(s, pos));
  }

  lemma CommentCut(cfg: Config, s: seq<char>, s': seq<char>, p: nat, q: nat)
    requires p < |s| && CommentRead(s, s', p, q, CommentRun(Left(s, p), "", true))
    requires Head(cfg, Left(s, p)) == CommentRun(Left(s, p), "", true).text
    ensures Cut(cfg, s, s', p, q) && p < q && Text(s', q) && Left(s', q) == CommentRun(Left(s, p), "", true).rest
  {}

  lemma CutReads(cfg: Config, s: seq<char>, s': seq<char>, p: nat, q: nat)
    requires Cut(cfg, s, s', p, q)
    ensures s'[..p] == s[..p] && CStr(s', p) == Head(cfg, Left(s, p))
  {}

  lemma SearchEnds(cfg: Config, s: seq<char>, b: seq<char>, pos: nat, p: nat, sec: Pointer, val: Pointer,
                   h: string, v0: string, target: Option<Entry>)
    requires Searching(cfg, s, b, pos, p, sec, val, h, v0, target) && b[p] == NUL
    ensures target == None && CStr(b, pos) == Head(cfg, Left(s, pos))
  {
    hide FindEntry, Head, CStr, NulAt, Future;
    EmptyLeft(b, b, p);
    SpacesCase(cfg, [], h, v0);
    FutureSettled(cfg, b, pos, p);
  }

  // ---- the store of pointers ----

  datatype KeyPointers = KeyPointers(key: Pointer, val: Pointer)

  datatype SectionPointers = SectionPointers(name: Pointer, keys: seq<KeyPointers>)

  /** m_data after a first load: nothing but pointers into the buffer. */
  type Pointers = seq<SectionPointers>

  /** Strings as they can be read now, or as they will be once FindEntry has been called at pos. */
  datatype View = Now(s: seq<char>) | Later(cfg: Config, s: seq<char>, pos: nat)

  function See(v: View, p: Pointer): string {
    match v
    case Now(s) => Str(s, p)
    case Later(cfg, s, pos) => Future(cfg, s, p, pos)
  }

  function KeysOf(v: View, ks: seq<KeyPointers>): (r: seq<KeyVal>)
    ensures |r| == |ks| && forall i :: 0 <= i < |ks| ==> r[i] == KeyVal(See(v, ks[i].key), See(v, ks[i].val))
  {
    if ks == [] then [] else [KeyVal(See(v, ks[0].key), See(v, ks[0].val))] + KeysOf(v, ks[1..])
  }

  function StoreOf(v: View, ps: Pointers): (r: Store)
    ensures |r| == |ps| && forall i :: 0 <= i < |ps| ==> r[i] == Section(See(v, ps[i].name), KeysOf(v, ps[i].keys))
  {
    if ps == [] then [] else [Section(See(v, ps[0].name), KeysOf(v, ps[0].keys))] + StoreOf(v, ps[1..])
  }

  /** The store that the pointers denote in a buffer. */
  function Deref(s: seq<char>, ps: Pointers): Store { StoreOf(Now(s), ps) }

  /** Two views show the same strings at all pointers of the store. */
  ghost predicate Agree(v: View, v': View, ps: Pointers) {
    && (forall i :: 0 <= i < |ps| ==> See(v, ps[i].name) == See(v', ps[i].name))
    && (forall i, j :: 0 <= i < |ps| && 0 <= j < |ps[i].keys| ==>
          See(v, ps[i].keys[j].key) == See(v', ps[i].keys[j].key) && See(v, ps[i].keys[j].val) == See(v', ps[i].keys[j].val))
  }

  lemma AgreeingViews(v: View, v': View, ps: Pointers)
    requires Agree(v, v', ps)
    ensures StoreOf(v, ps) == StoreOf(v', ps)
  {
    hide See;
    forall i | 0 <= i < |ps| ensures StoreOf(v, ps)[i] == StoreOf(v', ps)[i] {
      assert KeysOf(v, ps[i].keys) == KeysOf(v', ps[i].keys);
    }
  }

  /** All pointers lie before pos, and names and keys have their end. */
  ghost predicate Stored(s: seq<char>, ps: Pointers, pos: nat) {
    && (forall i :: 0 <= i < |ps| ==> Settled(s, ps[i].name, pos))
    && (forall i, j :: 0 <= i < |ps| && 0 <= j < |ps[i].keys| ==>
          Settled(s, ps[i].keys[j].key, pos) && ps[i].keys[j].val <= pos)
  }

  /** Parsing on leaves all that is stored as it was to be. */
  lemma StoreStays(cfg: Config, s: seq<char>, s': seq<char>, ps: Pointers, pos: nat, q: nat)
    requires Stored(s, ps, pos) && pos < q && Cut(cfg, s, s', pos, q)
    ensures StoreOf(Later(cfg, s', q), ps) == StoreOf(Later(cfg, s, pos), ps) && Stored(s', ps, q)
  {
    hide Future, Cut, Settled;
    forall p: Pointer | p <= pos ensures Future(cfg, s', p, q) == Future(cfg, s, p, pos) {
      FutureCut(cfg, s, s', p, pos, q);
    }
    forall p: Pointer | Settled(s, p, pos) ensures p <= pos && Settled(s', p, q) {
      SettledStays(cfg, s, s', p, pos, q);
    }
    AgreeingViews(Later(cfg, s', q), Later(cfg, s, pos), ps);
  }

  lemma SettledStays(cfg: Config, s: seq<char>, s': seq<char>, p: Pointer, pos: nat, q: nat)
    requires Settled(s, p, pos) && pos < q && Cut(cfg, s, s', pos, q)
    ensures p <= pos && Settled(s', p, q)
  {
    hide Head, Future;
    FutureCut(cfg, s, s', p, pos, q);
  }

  /** When nothing more is found, the strings can be read. */
  lemma StoreReads(cfg: Config, s: seq<char>, s': seq<char>, ps: Pointers, pos: nat)
    requires Stored(s, ps, pos) && |s| == |s'| && pos < |s| && s'[..pos] == s[..pos] && CStr(s', pos) == Head(cfg, Left(s, pos))
    ensures Deref(s', ps) == StoreOf(Later(cfg, s, pos), ps)
  {
    hide Future, Str, CStr, Head, NulAt;
    forall p: Pointer | p <= pos ensures Str(s', p) == Future(cfg, s, p, pos) {
      FutureNow(cfg, s, s', p, pos);
    }
    AgreeingViews(Now(s'), Later(cfg, s, pos), ps);
  }

  /** AddEntry on pointers: names are compared through the buffer. */
  function AddPointers(cfg: Config, v: View, ps: Pointers, sec: Pointer, key: Pointer, val: Pointer): Pointers {
    var i := FindSection(cfg, StoreOf(v, ps), See(v, sec));
    var ps' := if i < |ps| then ps else ps + [SectionPointers(sec, [])];
    if key < 0 then ps' else
      ps'[i := SectionPointers(ps'[i].name, PutPointers(cfg, v, ps'[i].keys, key, val))]
  }

  function PutPointers(cfg: Config, v: View, ks: seq<KeyPointers>, key: Pointer, val: Pointer): seq<KeyPointers> {
    var k := FindKey(cfg, KeysOf(v, ks), See(v, key));
    if k < |ks| then ks[k := KeyPointers(ks[k].key, val)] else ks + [KeyPointers(key, val)]
  }

  lemma AddDenotes(cfg: Config, v: View, ps: Pointers, sec: Pointer, key: Pointer, val: Pointer)
    ensures StoreOf(v, AddPointers(cfg, v, ps, sec, key, val))
         == AddEntry(cfg, StoreOf(v, ps), See(v, sec), if key < 0 then None else Some(See(v, key)), See(v, val))
  {
    hide FindSection, PutPointers, PutKey, KeysOf, See, Same, StoreOf;
    StoreLength(v, ps);
    var i := FindSection(cfg, StoreOf(v, ps), See(v, sec));
    FindSectionBound(cfg, StoreOf(v, ps), See(v, sec));
    SectionAdded(v, ps, sec);
    var ps' := if i < |ps| then ps else ps + [SectionPointers(sec, [])];
    StoreLength(v, ps');
    if key >= 0 {
      PutDenotes(cfg, v, ps'[i].keys, key, val);
      SectionReplaced(v, ps', i, PutPointers(cfg, v, ps'[i].keys, key, val));
    }
  }

  lemma SectionAdded(v: View, ps: Pointers, sec: Pointer)
    ensures StoreOf(v, ps + [SectionPointers(sec, [])]) == StoreOf(v, ps) + [Section(See(v, sec), [])]
  {
    hide See;
    NoKeys(v);
  }

  lemma SectionReplaced(v: View, ps: Pointers, i: nat, ks: seq<KeyPointers>)
    requires i < |ps|
    ensures |StoreOf(v, ps)| == |ps| && StoreOf(v, ps)[i].name == See(v, ps[i].name)
    ensures StoreOf(v, ps)[i].keys == KeysOf(v, ps[i].keys)
    ensures StoreOf(v, ps[i := SectionPointers(ps[i].name, ks)])
         == StoreOf(v, ps)[i := Section(StoreOf(v, ps)[i].name, KeysOf(v, ks))]
  {
    hide See;
  }

  lemma PutDenotes(cfg: Config, v: View, ks: seq<KeyPointers>, key: Pointer, val: Pointer)
    ensures KeysOf(v, PutPointers(cfg, v, ks, key, val)) == PutKey(cfg, KeysOf(v, ks), See(v, key), See(v, val))
  {
    hide See, Same;
  }

  lemma NoKeys(v: View)
    ensures KeysOf(v, []) == []
  {}

  lemma FindSectionBound(cfg: Config, st: Store, name: string)
    ensures FindSection(cfg, st, name) <= |st|
  {}

  /** Names and keys are compared as they can be read now, which is how they will stay. */
  lemma AddNow(cfg: Config, s: seq<char>, ps: Pointers, sec: Pointer, key: Pointer, val: Pointer, q: nat)
    requires Text(s, q) && Stored(s, ps, q) && Settled(s, sec, q) && Settled(s, key, q)
    ensures AddPointers(cfg, Now(s), ps, sec, key, val) == AddPointers(cfg, Later(cfg, s, q), ps, sec, key, val)
  {
    hide Same, Settled, Future, Str;
    forall p: Pointer | Settled(s, p, q) ensures Str(s, p) == Future(cfg, s, p, q) {
      SettledSeen(cfg, s, p, q);
    }
    var v, v' := Now(s), Later(cfg, s, q);
    FindSectionByName(cfg, StoreOf(v, ps), StoreOf(v', ps), See(v, sec));
    var i := FindSection(cfg, StoreOf(v, ps), See(v, sec));
    if i < |ps| {
      FindKeyByName(cfg, KeysOf(v, ps[i].keys), KeysOf(v', ps[i].keys), See(v, key));
    }
  }

  lemma SettledSeen(cfg: Config, s: seq<char>, p: Pointer, q: nat)
    requires Text(s, q) && Settled(s, p, q)
    ensures Str(s, p) == Future(cfg, s, p, q)
  {
    hide Head;
    if p >= 0 {
      FutureSettled(cfg, s, p, q);
    }
  }

  lemma FindSectionByName(cfg: Config, st: Store, st': Store, name: string)
    requires |st| == |st'| && forall i :: 0 <= i < |st| ==> st[i].name == st'[i].name
    ensures FindSection(cfg, st, name) == FindSection(cfg, st', name)
  {
    hide Same;
    assert forall i :: 0 <= i < |st| ==> Same(cfg, st[i].name, name) == Same(cfg, st'[i].name, name);
  }

  lemma FindKeyByName(cfg: Config, ks: seq<KeyVal>, ks': seq<KeyVal>, key: string)
    requires |ks| == |ks'| && forall i :: 0 <= i < |ks| ==> ks[i].key == ks'[i].key
    ensures FindKey(cfg, ks, key) == FindKey(cfg, ks', key)
  {
    hide Same;
    assert forall i :: 0 <= i < |ks| ==> Same(cfg, ks[i].key, key) == Same(cfg, ks'[i].key, key);
  }

  lemma AddStored(cfg: Config, s: seq<char>, v: View, ps: Pointers, sec: Pointer, key: Pointer, val: Pointer, q: nat)
    requires Stored(s, ps, q) && Settled(s, sec, q) && Settled(s, key, q) && val <= q
    ensures Stored(s, AddPointers(cfg, v, ps, sec, key, val), q)
  {
    hide Settled, FindKey, See, StoreOf, FindSection;
    FindSectionBound(cfg, StoreOf(v, ps), See(v, sec));
    assert |StoreOf(v, ps)| == |ps| by { StoreLength(v, ps); }
  }

  lemma StoreLength(v: View, ps: Pointers)
    ensures |StoreOf(v, ps)| == |ps|
  {}

  // ---- LoadData ----

  /** LoadData into an empty store, in place, for every text: when it has been parsed, the pointers in the
      store denote exactly the store that the value-level parser builds. */
  method LoadData(cfg: Config, text: string) returns (a: array<char>, ps: Pointers)
    requires NoNul(text)
    ensures Deref(a[..], ps) == Load(cfg, text)
  {
    hide FindEntry, StoreOf, AddEntry, AddPointers, NulAt, CStr, Stored, CommentRun, Future, LoadFrom;
    var n := |text|;
    a := new char[n + 1](i requires 0 <= i <= n => if i < n then text[i] else NUL);
    assert a[..n] == text && Left(a[..], 0) == text;
    ps := [];
    var pos: nat, sec: Pointer, val: Pointer, more := 0, -1, -1, true;
    if IsComment(a[0]) {
      pos := LoadComment(a, 0, false);
    }
    NothingStored(cfg, a[..], pos);
    while more
      invariant pos < a.Length && sec <= pos && val <= pos
      invariant more ==> Text(a[..], pos) && Stored(a[..], ps, pos)
      invariant more ==> LoadFrom(cfg, Left(a[..], pos), Future(cfg, a[..], sec, pos), Future(cfg, a[..], val, pos),
                                  StoreOf(Later(cfg, a[..], pos), ps)) == Load(cfg, text)
      invariant !more ==> Deref(a[..], ps) == Load(cfg, text)
      decreases more, a.Length - pos
    {
      hide Load;
      more, pos, sec, val, ps := LoadTurn(cfg, a, pos, sec, val, ps, Load(cfg, text));
    }
  }

  lemma NothingStored(cfg: Config, s: seq<char>, pos: nat)
    ensures StoreOf(Later(cfg, s, pos), []) == [] && Stored(s, [], pos) && Future(cfg, s, -1, pos) == ""
  {}

  /** One turn of LoadData's loop: find an entry and add it. */
  method LoadTurn(cfg: Config, a: array<char>, pos: nat, sec: Pointer, val: Pointer, ps: Pointers, ghost target: Store)
      returns (more: bool, pos': nat, sec': Pointer, val': Pointer, ps': Pointers)
    requires Text(a[..], pos) && Stored(a[..], ps, pos) && sec <= pos && val <= pos
    requires LoadFrom(cfg, Left(a[..], pos), Future(cfg, a[..], sec, pos), Future(cfg, a[..], val, pos),
                      StoreOf(Later(cfg, a[..], pos), ps)) == target
    modifies a
    ensures pos' < a.Length && sec' <= pos' && val' <= pos'
    ensures more ==> pos < pos' && Text(a[..], pos') && Stored(a[..], ps', pos')
    ensures more ==> LoadFrom(cfg, Left(a[..], pos'), Future(cfg, a[..], sec', pos'), Future(cfg, a[..], val', pos'),
                              StoreOf(Later(cfg, a[..], pos'), ps')) == target
    ensures !more ==> Deref(a[..], ps') == target
  {
    hide FindEntry, StoreOf, AddEntry, AddPointers, NulAt, CStr, Settled, Stored, Future, Cut, Head, Str;
    ghost var s := a[..];
    var found, q, sc, key, vl := FindEntryAt(cfg, a, pos, sec, val);
    more, pos', sec', val', ps' := found, pos, sec, val, ps;
    if !found {
      StoreReads(cfg, s, a[..], ps, pos);
    } else {
      StoreStays(cfg, s, a[..], ps, pos, q);
      AddNow(cfg, a[..], ps, sc, key, vl, q);
      AddStored(cfg, a[..], Now(a[..]), ps, sc, key, vl, q);
      AddDenotes(cfg, Later(cfg, a[..], q), ps, sc, key, vl);
      ps' := AddPointers(cfg, Now(a[..]), ps, sc, key, vl);
      pos', sec', val' := q, sc, vl;
    }
  }

  /** LoadData into a store that already holds data: names are compared and all strings copied as each
      entry is found, so that nothing of the buffer is kept. */
  method LoadDataInto(cfg: Config, text: string, hasComment: bool, st: Store) returns (st': Store)
    requires NoNul(text)
    ensures st' == LoadMore(cfg, text, hasComment, st)
  {
    hide FindEntry, AddEntry, NulAt, CStr, CommentRun, Future, CopyFrom;
    var n := |text|;
    var a := new char[n + 1](i requires 0 <= i <= n => if i < n then text[i] else NUL);
    assert a[..n] == text && Left(a[..], 0) == text;
    st' := st;
    var pos: nat, sec: Pointer, val: Pointer, more := 0, -1, -1, true;
    if !hasComment && IsComment(a[0]) {
      pos := LoadComment(a, 0, false);
    }
    NothingStored(cfg, a[..], pos);
    while more
      invariant pos < a.Length && sec <= pos && val <= pos
      invariant more ==> Text(a[..], pos)
      invariant if more then CopyFrom(cfg, Left(a[..], pos), Future(cfg, a[..], sec, pos), Future(cfg, a[..], val, pos), st')
                               == LoadMore(cfg, text, hasComment, st)
                else st' == LoadMore(cfg, text, hasComment, st)
      decreases more, a.Length - pos
    {
      hide LoadMore;
      more, pos, sec, val, st' := CopyTurn(cfg, a, pos, sec, val, st', LoadMore(cfg, text, hasComment, st));
    }
  }

  /** One turn of that loop. */
  method CopyTurn(cfg: Config, a: array<char>, pos: nat, sec: Pointer, val: Pointer, st: Store, ghost target: Store)
      returns (more: bool, pos': nat, sec': Pointer, val': Pointer, st': Store)
    requires Text(a[..], pos) && sec <= pos && val <= pos
    requires CopyFrom(cfg, Left(a[..], pos), Future(cfg, a[..], sec, pos), Future(cfg, a[..], val, pos), st) == target
    modifies a
    ensures pos' < a.Length && sec' <= pos' && val' <= pos'
    ensures if more then pos < pos' && Text(a[..], pos') else st' == target
    ensures more ==> CopyFrom(cfg, Left(a[..], pos'), Future(cfg, a[..], sec', pos'), Future(cfg, a[..], val', pos'), st') == target
  {
    hide FindEntry, AddEntry, NulAt, CStr, Settled, Future, Cut, Head, Str;
    var found, q, sc, key, vl := FindEntryAt(cfg, a, pos, sec, val);
    more, pos', sec', val', st' := found, pos, sec, val, st;
    if found {
      SettledSeen(cfg, a[..], sc, q);
      SettledSeen(cfg, a[..], key, q);
      st' := AddEntry(cfg, st, Str(a[..], sc), if key < 0 then None else Some(Str(a[..], key)), Str(a[..], vl));
      pos', sec', val' := q, sc, vl;
    }
  }
}
