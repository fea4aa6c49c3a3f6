/** LoadMultiLineText of opencv-test/play-frame/SimpleIni.h in place: the lines of a block are moved
    together inside the buffer, and their text stays where it was read. */
module IniBlocks {
  import opened IniText
  import opened IniBuffer

  ghost predicate NoNul(s: string) { forall i :: 0 <= i < |s| ==> s[i] != NUL }

  lemma {:induction false} TrimTailKeeps(s: string, i: nat)
    requires i < |s| && !IsSpace(s[i])
    ensures |TrimTail(s)| > i
  {
    if |s| > 1 && IsSpace(s[|s| - 1]) {
      TrimTailKeeps(s[..|s| - 1], i);
    }
  }

  /** The line as the tag comparison sees it. */
  function Shown(line: string, moved: bool): (r: string)
    ensures r <= line
  {
    if moved then line else TrimTail(line)
  }

  lemma ShownPrefix(line: string, moved: bool)
    ensures Shown(line, moved) <= line
  {}

  /** Move the line between c and p to d and end it with a NUL. */
  method Place(a: array<char>, d: nat, c: nat, p: nat)
    requires d <= c <= p < a.Length
    modifies a
    ensures a[..d] == old(a[..d]) && a[p + 1..] == old(a[p + 1..])
    ensures a[d..d + (p - c)] == old(a[c..p]) && a[d + (p - c)] == NUL && a[p] == NUL
  {
    ghost var s := a[..];
    if d < c {
      MoveDown(a, d, c, p - c);
    }
    assert forall i :: p < i < a.Length ==> a[i] == s[i] by {
      assert a[p..] == s[p..];
      assert forall i :: p < i < a.Length ==> a[i] == a[p..][i - p] && s[i] == s[p..][i - p];
    }
    ghost var b := a[..];
    a[p] := NUL;
    assert a[..] == b[p := NUL];
    assert a[..d] == b[..d] == s[..d] && a[d..d + (p - c)] == b[d..d + (p - c)];
  }

  /** One line, from c to its end p: place it, compare it with the tag, and put back the character that
      the trimming cut off unless it is the tag. */
  method Probe(cfg: Config, a: array<char>, d: nat, c: nat, p: nat, tagPtr: nat, ghost pos: nat)
      returns (hit: bool, cEnd: char)
    requires tagPtr <= pos <= d <= c <= p < a.Length
    requires NoNul(a[c..p])
    requires NulAt(a[..], tagPtr) < pos || (pos == p == a.Length - 1 && a[p] == NUL)
    modifies a
    ensures cEnd == old(a[p]) && a[..d] == old(a[..d]) && a[p + 1..] == old(a[p + 1..]) && a[p] == NUL
    ensures hit == Same(cfg, Shown(old(a[c..p]), d < c), old(CStr(a[..], tagPtr)))
    ensures !hit ==> a[d..d + (p - c)] == old(a[c..p]) && a[d + (p - c)] == NUL
    ensures hit ==> var shown := Shown(old(a[c..p]), d < c);
      a[d..d + |shown|] == shown && a[d + |shown|] == NUL
  {
    hide Same, TrimTail, CStr, NulAt;
    ghost var s := a[..];
    ghost var line := a[c..p];
    cEnd := a[p];
    Place(a, d, c, p);
    ghost var b := a[..];
    var t := TrimTagEnd(a, d, p);
    var ch := a[t];
    a[t] := NUL;
    assert a[..] == b[t := NUL];
    ProbeState(s, b, a[..], d, c, p, t, line, tagPtr, pos);
    hit := Same(cfg, CStr(a[..], d), CStr(a[..], tagPtr));
    if !hit {
      a[t] := ch;
      assert a[..] == b;
    }
  }

  /** The line is placed in b and cut at its trimmed end in b'. */
  lemma ProbeState(s: seq<char>, b: seq<char>, b': seq<char>, d: nat, c: nat, p: nat, t: nat, line: string,
                   tagPtr: nat, pos: nat)
    requires |s| == |b| == |b'| && tagPtr <= pos <= d <= c <= p < |s| && line == s[c..p] && NoNul(line)
    requires NulAt(s, tagPtr) < pos || (pos == p == |s| - 1 && s[p] == NUL)
    requires b[..d] == s[..d] && b[p + 1..] == s[p + 1..] && b[d..d + (p - c)] == line && b[d + (p - c)] == NUL && b[p] == NUL
    requires d <= t <= p && b[d..t] == TrimTail(b[d..p]) && b' == b[t := NUL]
    ensures var shown := Shown(line, d < c);
      && CStr(b', d) == shown && b'[d..d + |shown|] == shown && b'[d + |shown|] == NUL
      && CStr(b', tagPtr) == CStr(s, tagPtr) && b'[..d] == s[..d] && b'[p + 1..] == s[p + 1..] && b'[p] == NUL
  {
    hide TrimTail, CStr, NulAt, Shown;
    if d < c {
      MovedCut(b, d, c, p, t);
    }
    ShownAt(b, d, p - c, p, t, line, d < c);
    CStrIs(b', d, d + |Shown(line, d < c)|);
    CutKeeps(s, b, b', d, p, t);
    TagKept(s, b', tagPtr, pos, d, p);
  }

  /** The NUL behind a line that was moved down is no blank, so the cut comes after it. */
  lemma MovedCut(b: seq<char>, d: nat, c: nat, p: nat, t: nat)
    requires d < c <= p < |b| && d <= t <= p && b[d + (p - c)] == NUL && b[d..t] == TrimTail(b[d..p])
    ensures t > d + (p - c)
  {
    assert b[d..p][p - c] == NUL;
    TrimTailKeeps(b[d..p], p - c);
  }

  lemma CutKeeps(s: seq<char>, b: seq<char>, b': seq<char>, d: nat, p: nat, t: nat)
    requires |s| == |b| && d <= t <= p < |s| && b[..d] == s[..d] && b[p + 1..] == s[p + 1..] && b[p] == NUL && b' == b[t := NUL]
    ensures b'[..d] == s[..d] && b'[p + 1..] == s[p + 1..] && b'[p] == NUL
  {
    assert b'[..d] == b[..d] && b'[p + 1..] == b[p + 1..];
  }

  /** After the cut, the string at d is the shown line. */
  lemma ShownAt(b: seq<char>, d: nat, len: nat, p: nat, t: nat, line: string, moved: bool)
    requires d + len <= p < |b| && d <= t <= p && |line| == len && b[d..d + len] == line && b[d + len] == NUL
    requires NoNul(line)
    requires b[d..t] == TrimTail(b[d..p])
    requires if moved then t > d + len else d + len == p
    ensures var shown, s' := Shown(line, moved), b[t := NUL];
      d + |shown| <= p && s'[d..d + |shown|] == shown && s'[d + |shown|] == NUL
      && forall i :: d <= i < d + |shown| ==> s'[i] != NUL
  {
    hide TrimTail;
    assert forall i {:trigger line[i]} :: 0 <= i < len ==> b[d + i] == line[i];
    var shown, s' := Shown(line, moved), b[t := NUL];
    if !moved {
      assert shown == b[d..t];
    }
    assert shown <= line && d + |shown| <= t;
    forall i | d <= i < d + |shown| ensures s'[i] == shown[i - d] && s'[i] != NUL {
      assert shown[i - d] == line[i - d] && b[d + (i - d)] == line[i - d];
    }
    assert s'[d..d + |shown|] == shown;
  }

  lemma TagKept(s: seq<char>, s': seq<char>, tagPtr: nat, pos: nat, d: nat, p: nat)
    requires |s| == |s'| && tagPtr <= pos <= d <= p < |s|
    requires s[..d] == s'[..d]
    requires NulAt(s, tagPtr) < pos || (pos == p == |s| - 1 && s'[p] == s[p] == NUL)
    ensures CStr(s', tagPtr) == CStr(s, tagPtr)
  {}

  /** Put a line's terminating character back and step over the newline. */
  method NextLine(a: array<char>, p: nat, cEnd: char, ghost s: seq<char>) returns (q: nat)
    requires |s| == a.Length && Text(s, p) && p + 1 < a.Length && cEnd == s[p] && a[p + 1..] == s[p + 1..]
    modifies a
    ensures a[..p] == old(a[..p]) && p < q <= p + 2
    ensures Text(a[..], q) && Left(a[..], q) == SkipNewLine(Left(s, p))
    ensures q == p + 2 <==> s[p] == '\r' && s[p + 1] == '\n'
    ensures a[p..q] == s[p..q] && Left(a[..], q) == Left(s, q)
  {
    a[p] := cEnd;
    assert forall i :: p < i < a.Length ==> a[i] == a[p + 1..][i - p - 1] == s[p + 1..][i - p - 1] == s[i];
    assert Left(a[..], p) == Left(s, p);
    q := SkipLineEnd(a, p);
  }

  /** Where a value ended early or late: `end` is the cell of its NUL. */
  ghost predicate Ends(s: seq<char>, pos: nat, end: nat, val: string) {
    pos <= end < |s| && s[end] == NUL && s[pos..end] == val && NoNul(val)
  }

  lemma EndsIsCStr(s: seq<char>, pos: nat, end: nat, val: string)
    requires Ends(s, pos, end, val)
    ensures NulAt(s, pos) == end && CStr(s, pos) == val
  {}

  lemma EndsKept(b: seq<char>, s: seq<char>, pos: nat, end: nat, val: string, p: nat)
    requires Ends(b, pos, end, val) && end < p <= |b| == |s| && b[..p] == s[..p]
    ensures Ends(s, pos, end, val)
  {}

  lemma SameText(t: seq<char>, s: seq<char>, pos: nat, p: nat, q: nat)
    requires |t| == |s| && pos <= p < q < |s| && q <= p + 2
    requires Text(s, pos) && Text(t, q) && t[pos..p] == s[pos..p] && t[p..q] == s[p..q] && Left(t, q) == Left(s, q)
    ensures Text(t, pos) && Left(t, pos) == Left(s, pos)
  {
    var n := |s| - 1;
    assert t[pos..n] == t[pos..p] + t[p..q] + t[q..n];
    assert s[pos..n] == s[pos..p] + s[p..q] + s[q..n];
    assert forall i :: pos <= i < n ==> t[i] == t[pos..n][i - pos] == s[pos..n][i - pos] == s[i];
  }

  lemma SamePrefix(s: seq<char>, t: seq<char>, i: nat, j: nat)
    requires i <= j <= |s| && j <= |t| && s[..j] == t[..j]
    ensures s[..i] == t[..i] && s[i..j] == t[i..j]
  {}

  /** What one line means for the rest of the block. */
  lemma LinesStep(cfg: Config, s: seq<char>, c: nat, p: nat, tag: string, acc: string, moved: bool)
    requires c <= p < |s| && Drop(AtNewLine, Left(s, c)) == Left(s, p) && Take(AtNewLine, Left(s, c)) == s[c..p]
    ensures var r, line, z := LoadLines(cfg, Left(s, c), tag, acc, moved), s[c..p], Left(s, p);
      var shown := Shown(line, moved);
      if Same(cfg, shown, tag) then HitIs(r, s, c, p, acc, shown)
      else if z == [] then r == Lines(acc + line, [])
      else r == LoadLines(cfg, SkipNewLine(z), tag, acc + line + "\n",
                          moved || (z[0] == '\r' && |z| > 1 && z[1] == '\n'))
  {}

  /** The result when the line between c and p is the tag. */
  ghost predicate HitIs(r: Lines, s: seq<char>, c: nat, p: nat, acc: string, shown: string)
    requires c <= p < |s|
  {
    if acc != [] then r == Lines(acc[..|acc| - 1], SkipNewLine(Left(s, p)))
    else if c == p then r == NoLines
    else if p + 1 == |s| || |shown| < p - c then r == Lines(shown, SkipNewLine(Left(s, p)))
    else r == Endless(Left(s, c), SkipNewLine(Left(s, p)))
  }

  lemma TagStill(s0: seq<char>, s: seq<char>, tagPtr: nat, pos: nat)
    requires |s| == |s0| && tagPtr <= pos < |s| && s[..pos] == s0[..pos]
    requires NulAt(s0, tagPtr) < pos || s == s0
    ensures CStr(s, tagPtr) == CStr(s0, tagPtr) && NulAt(s, tagPtr) == NulAt(s0, tagPtr)
  {
    if s != s0 {
      CStrStable(s0, s, tagPtr, pos);
    }
  }

  /** The end of the text came before the tag: what was gathered is the value. */
  lemma LastLine(b: seq<char>, pos: nat, d: nat, len: nat, acc: string, line: string)
    requires pos <= d && d + len < |b| && |line| == len && b[pos..d] == acc && b[d..d + len] == line && b[d + len] == NUL
    requires NoNul(acc) && NoNul(line)
    ensures CStr(b, pos) == acc + line
  {}

  /** A line that is not the tag joins the block with a single newline. */
  method TakeLine(a: array<char>, pos: nat, d: nat, c: nat, p: nat, cEnd: char,
                  ghost s: seq<char>, ghost acc: string, ghost line: string) returns (d': nat, q: nat)
    requires pos <= d <= c <= p && p + 1 < a.Length == |s| && Text(s, p) && cEnd == s[p] && a[p + 1..] == s[p + 1..]
    requires |line| == p - c && a[pos..d] == acc && a[d..d + (p - c)] == line
    modifies a
    ensures pos < d' <= q && p < q && Text(a[..], q) && Left(a[..], q) == SkipNewLine(Left(s, p))
    ensures a[..pos] == old(a[..pos]) && a[pos..d'] == acc + line + "\n"
    ensures d' < q <==> d < c || (s[p] == '\r' && s[p + 1] == '\n')
  {
    hide SkipNewLine;
    ghost var b := a[..];
    var e := d + (p - c);
    q := NextLine(a, p, cEnd, s);
    ghost var b' := a[..];
    a[e] := '\n';
    d' := e + 1;
    JoinedLine(b, b', a[..], pos, d, e, p, acc, line);
    TextKept(b', a[..], e, q);
  }

  lemma JoinedLine(b: seq<char>, b': seq<char>, t: seq<char>, pos: nat, d: nat, e: nat, p: nat, acc: string, line: string)
    requires |b| == |b'| && pos <= d <= e <= p < |b| && b'[..p] == b[..p] && t == b'[e := '\n']
    requires b[pos..d] == acc && b[d..e] == line
    ensures t[..pos] == b[..pos] && t[pos..e + 1] == acc + line + "\n"
  {
    SamePrefix(b', b, e, p);
    assert t[..e] == b[..e];
    assert t[pos..e] == t[..e][pos..] && b[pos..e] == b[..e][pos..];
    assert b[pos..e] == acc + line;
    assert t[pos..e + 1] == t[pos..e] + ['\n'];
  }

  lemma TextKept(s: seq<char>, t: seq<char>, e: nat, q: nat)
    requires e < q && Text(s, q) && |t| == |s| && t == s[e := t[e]]
    ensures Text(t, q) && Left(t, q) == Left(s, q)
  {}

  /** The lines so far stand in b from pos to d, and the tag line behind them, as it is shown; s is the
      buffer before that line was placed. */
  ghost predicate Placed(s: seq<char>, b: seq<char>, pos: nat, d: nat, c: nat, p: nat, acc: string, shown: string) {
    && 1 <= pos <= d <= c <= p < |b| == |s| && Text(s, c) && b[p + 1..] == s[p + 1..] && b[p] == NUL
    && (d == pos <==> c == pos) && b[pos..d] == acc && NoNul(acc) && shown <= s[c..p]
    && b[d..d + |shown|] == shown && b[d + |shown|] == NUL
  }

  lemma PlacedTag(cfg: Config, s0: seq<char>, s: seq<char>, b: seq<char>, pos: nat, tagPtr: nat, d: nat, c: nat, p: nat,
                  acc: string, target: Lines, shown: string)
    requires BlockInv(cfg, s0, s, pos, tagPtr, d, c, acc, target) && c <= p < |s| == |b|
    requires b[..d] == s[..d] && b[p + 1..] == s[p + 1..] && b[p] == NUL && shown <= s[c..p]
    requires d + |shown| < |b| && b[d..d + |shown|] == shown && b[d + |shown|] == NUL
    ensures Placed(s, b, pos, d, c, p, acc, shown)
  {
    hide LoadLines, CStr, NulAt, NoNul, Text;
    SamePrefix(b, s, pos, d);
  }

  /** The tag was found on the line between c and p. */
  method Finish(a: array<char>, pos: nat, d: nat, c: nat, p: nat, cEnd: char,
                ghost s: seq<char>, ghost acc: string, ghost shown: string, ghost r: Lines) returns (ok: bool, q: nat)
    requires Placed(s, a[..], pos, d, c, p, acc, shown) && cEnd == s[p] && HitIs(r, s, c, p, acc, shown)
    modifies a
    ensures a[..pos - 1] == old(a[..pos - 1])
    ensures ok == !r.NoLines?
    ensures ok ==> pos <= q && Text(a[..], q) && Left(a[..], q) == r.rest && CStr(a[..], pos) == r.val
    ensures r.Lines? ==> NulAt(a[..], pos) < q || q + 1 == a.Length
  {
    hide CStr, NulAt, SkipNewLine;
    q := p;
    if pos == p {
      return false, p;
    }
    ok := true;
    ghost var b0 := a[..];
    a[d - 1] := NUL;
    ghost var b := a[..];
    assert b == b0[d - 1 := NUL];
    assert a[p + 1..] == b0[p + 1..] && a[..pos - 1] == b0[..pos - 1];
    if cEnd != NUL {
      q := NextLine(a, p, cEnd, s);
      assert a[..pos - 1] == a[..p][..pos - 1] == b[..p][..pos - 1];
    } else {
      EmptyLeft(s, a[..], p);
    }
    FinishValue(b0, b, a[..], s, pos, d, c, p, q, acc, shown, r);
  }

  lemma FinishValue(b0: seq<char>, b: seq<char>, t: seq<char>, s: seq<char>,
                    pos: nat, d: nat, c: nat, p: nat, q: nat, acc: string, shown: string, r: Lines)
    requires 1 <= pos <= d <= c <= p < |s| && |b0| == |b| == |t| == |s| && Text(s, c) && b == b0[d - 1 := NUL]
    requires (d == pos <==> c == pos) && b0[pos..d] == acc && shown <= s[c..p] && pos != p
    requires NoNul(acc)
    requires d + |shown| < |s| && b0[d..d + |shown|] == shown && b0[d + |shown|] == NUL
    requires if p + 1 == |s| then t == b
      else p < q < |s| && q <= p + 2 && t[..p] == b[..p] && t[p..q] == s[p..q] && Text(t, q) && Left(t, q) == Left(s, q)
    requires HitIs(r, s, c, p, acc, shown)
    ensures !r.NoLines? && CStr(t, pos) == r.val
    ensures r.Lines? ==> NulAt(t, pos) < p || p + 1 == |s|
  {
    hide CStr, NulAt, SkipNewLine, Ends, NoNul, Text, Left;
    if acc != [] {
      AccEnds(b0, b, pos, d, acc);
      ValueEnds(b, t, pos, d - 1, acc[..|acc| - 1], p);
    } else {
      assert d == pos == c;
      if p + 1 == |s| || |shown| < p - c {
        ShownEnds(b0, b, s, c, p, shown);
        ValueEnds(b, t, pos, pos + |shown|, shown, p);
      } else {
        WholeText(b0, b, t, s, c, p, q);
      }
    }
  }

  lemma AccEnds(b0: seq<char>, b: seq<char>, pos: nat, d: nat, acc: string)
    requires pos < d < |b0| && b == b0[d - 1 := NUL] && b0[pos..d] == acc && NoNul(acc)
    ensures Ends(b, pos, d - 1, acc[..|acc| - 1])
  {}

  lemma ShownEnds(b0: seq<char>, b: seq<char>, s: seq<char>, c: nat, p: nat, shown: string)
    requires 1 <= c <= p < |s| == |b0| && Text(s, c) && shown <= s[c..p] && b == b0[c - 1 := NUL]
    requires c + |shown| < |s| && b0[c..c + |shown|] == shown && b0[c + |shown|] == NUL
    ensures Ends(b, c, c + |shown|, shown)
  {}

  lemma WholeText(b0: seq<char>, b: seq<char>, t: seq<char>, s: seq<char>, c: nat, p: nat, q: nat)
    requires 1 <= c <= p < q < |s| == |b0| == |t| && Text(s, c) && b == b0[c - 1 := NUL] && b0[c..p] == s[c..p]
    requires q <= p + 2 && t[..p] == b[..p] && t[p..q] == s[p..q] && Text(t, q) && Left(t, q) == Left(s, q)
    ensures CStr(t, c) == Left(s, c)
  {
    assert b[c..p] == b0[c..p];
    SamePrefix(t, b, c, p);
    SameText(t, s, c, p, q);
    CStrIs(t, c, |s| - 1);
  }

  lemma EmptyLeft(s: seq<char>, t: seq<char>, p: nat)
    requires p + 1 == |s| == |t|
    ensures Left(s, p) == Left(t, p) == SkipNewLine(Left(s, p)) == []
  {}

  lemma ValueEnds(b: seq<char>, s: seq<char>, pos: nat, end: nat, val: string, p: nat)
    requires Ends(b, pos, end, val) && |b| == |s| && p < |b|
    requires (end < p && b[..p] == s[..p]) || b == s
    ensures NulAt(s, pos) == end && CStr(s, pos) == val
  {
    if b != s {
      EndsKept(b, s, pos, end, val, p);
    }
    EndsIsCStr(s, pos, end, val);
  }

  /** Between two lines: the lines so far stand together from pos to d, the text goes on at p, and
      what is still to come decides the result. */
  ghost predicate BlockInv(cfg: Config, s0: seq<char>, s: seq<char>, pos: nat, tagPtr: nat, d: nat, p: nat,
                           acc: string, target: Lines)
  {
    && |s| == |s0| && tagPtr <= pos && 1 <= pos <= d <= p < |s| && Text(s, p)
    && s[..pos] == s0[..pos] && s[pos..d] == acc && NoNul(acc)
    && (d == pos <==> p == pos)
    && (NulAt(s0, tagPtr) < pos || (p == pos && pos + 1 == |s| && s == s0))
    && LoadLines(cfg, Left(s, p), CStr(s0, tagPtr), acc, d < p) == target
  }

  lemma LineNoNul(s: seq<char>, c: nat, p: nat)
    requires Text(s, c) && c <= p < |s|
    ensures NoNul(s[c..p])
  {}

  /** One turn of the loop over lines. */
  method Turn(cfg: Config, a: array<char>, pos: nat, tagPtr: nat, d: nat, c: nat,
              ghost s0: seq<char>, ghost acc: string, ghost target: Lines)
      returns (done: bool, ok: bool, d': nat, p: nat, ghost acc': string)
    requires BlockInv(cfg, s0, a[..], pos, tagPtr, d, c, acc, target)
    modifies a
    ensures a[..pos - 1] == s0[..pos - 1] && (!done ==> c < p)
    ensures !done ==> BlockInv(cfg, s0, a[..], pos, tagPtr, d', p, acc', target)
    ensures done ==> ok == !target.NoLines?
    ensures done && ok ==> pos <= p && Text(a[..], p) && Left(a[..], p) == target.rest && CStr(a[..], pos) == target.val
    ensures done && target.Lines? ==> NulAt(a[..], pos) < p || p + 1 == a.Length
  {
    hide Same, LoadLines, CStr, NulAt, Shown, Take, Drop, SkipNewLine, NoNul, HitIs, Placed;
    p := Scan(AtNewLine, a, c);
    ghost var s, line := a[..], a[c..p];
    assert line == s[c..p];
    ShownPrefix(line, d < c);
    LinesStep(cfg, s, c, p, CStr(s0, tagPtr), acc, d < c);
    TagStill(s0, s, tagPtr, pos);
    LineNoNul(s, c, p);
    var hit, cEnd := Probe(cfg, a, d, c, p, tagPtr, pos);
    if hit {
      done, d', acc' := true, d, acc;
      ok, p := Hit(cfg, a, pos, tagPtr, d, c, p, cEnd, s0, s, acc, Shown(line, d < c), target);
    } else {
      ok := true;
      done, d', p, acc' := Miss(cfg, a, pos, tagPtr, d, c, p, cEnd, s0, s, acc, line, target);
    }
  }

  /** The line is the tag. */
  method Hit(cfg: Config, a: array<char>, pos: nat, tagPtr: nat, d: nat, c: nat, p: nat, cEnd: char,
             ghost s0: seq<char>, ghost s: seq<char>, ghost acc: string, ghost shown: string, ghost target: Lines)
      returns (ok: bool, q: nat)
    requires BlockInv(cfg, s0, s, pos, tagPtr, d, c, acc, target) && c <= p < |s| == a.Length && cEnd == s[p]
    requires a[..d] == s[..d] && a[p + 1..] == s[p + 1..] && a[p] == NUL && shown <= s[c..p]
    requires d + |shown| < a.Length && a[d..d + |shown|] == shown && a[d + |shown|] == NUL
    requires HitIs(target, s, c, p, acc, shown)
    modifies a
    ensures a[..pos - 1] == s0[..pos - 1] && ok == !target.NoLines?
    ensures ok ==> pos <= q && Text(a[..], q) && Left(a[..], q) == target.rest && CStr(a[..], pos) == target.val
    ensures target.Lines? ==> NulAt(a[..], pos) < q || q + 1 == a.Length
  {
    hide LoadLines, CStr, NulAt, SkipNewLine, NoNul, HitIs, Placed;
    PlacedTag(cfg, s0, s, a[..], pos, tagPtr, d, c, p, acc, target, shown);
    SamePrefix(a[..], s, pos, d);
    SamePrefix(a[..], s0, pos - 1, pos);
    ok, q := Finish(a, pos, d, c, p, cEnd, s, acc, shown, target);
  }

  /** The line was not the tag: the text ends with it, or the block goes on. */
  method Miss(cfg: Config, a: array<char>, pos: nat, tagPtr: nat, d: nat, c: nat, p: nat, cEnd: char,
              ghost s0: seq<char>, ghost s: seq<char>, ghost acc: string, ghost line: string, ghost target: Lines)
      returns (done: bool, d': nat, q: nat, ghost acc': string)
    requires BlockInv(cfg, s0, s, pos, tagPtr, d, c, acc, target) && c <= p < |s| == a.Length && Text(s, p)
    requires cEnd == s[p] && line == s[c..p] && NoNul(line)
    requires a[..d] == s[..d] && a[p + 1..] == s[p + 1..] && a[p] == NUL
    requires a[d..d + (p - c)] == line && a[d + (p - c)] == NUL
    requires Left(s, p) == [] ==> target == Lines(acc + line, [])
    requires var z := Left(s, p); z != [] ==>
      target == LoadLines(cfg, SkipNewLine(z), CStr(s0, tagPtr), acc + line + "\n",
                          d < c || (z[0] == '\r' && |z| > 1 && z[1] == '\n'))
    modifies a
    ensures a[..pos - 1] == s0[..pos - 1] && (!done ==> c < q)
    ensures !done ==> BlockInv(cfg, s0, a[..], pos, tagPtr, d', q, acc', target)
    ensures done ==> target.Lines? && pos <= q && Text(a[..], q) && Left(a[..], q) == target.rest
    ensures done ==> CStr(a[..], pos) == target.val && q + 1 == a.Length
  {
    hide LoadLines, CStr, NulAt, SkipNewLine, NoNul;
    SamePrefix(a[..], s, pos, d);
    SamePrefix(a[..], s0, pos - 1, pos);
    d', q, acc' := d, p, acc;
    if cEnd == NUL {
      done := true;
      LastLine(a[..], pos, d, p - c, acc, line);
      EmptyLeft(s, a[..], p);
    } else {
      done := false;
      d', q := TakeLine(a, pos, d, c, p, cEnd, s, acc, line);
      acc' := acc + line + "\n";
      Joined(acc, line);
      CrLfAt(s, p);
      SamePrefix(a[..], s0, pos - 1, pos);
    }
  }

  lemma Joined(acc: string, line: string)
    requires NoNul(acc) && NoNul(line)
    ensures NoNul(acc + line + "\n")
  {}

  lemma CrLfAt(s: seq<char>, p: nat)
    requires Text(s, p) && p + 1 < |s|
    ensures var z := Left(s, p);
      z != [] && ((z[0] == '\r' && |z| > 1 && z[1] == '\n') <==> (s[p] == '\r' && s[p + 1] == '\n'))
  {}

  /** LoadMultiLineText with a tag, in place: success, position and value are those of LoadLines, and
      nothing before the cell in front of the block is touched. */
  method LoadBlock(cfg: Config, a: array<char>, pos: nat, tagPtr: nat) returns (ok: bool, p: nat)
    requires Text(a[..], pos) && tagPtr <= pos && 1 <= pos
    requires NulAt(a[..], tagPtr) < pos || pos + 1 == a.Length
    modifies a
    ensures a[..pos - 1] == old(a[..pos - 1])
    ensures var r := LoadLines(cfg, old(Left(a[..], pos)), old(CStr(a[..], tagPtr)), "", false);
      && ok == !r.NoLines?
      && (ok ==> pos <= p && Text(a[..], p) && Left(a[..], p) == r.rest && CStr(a[..], pos) == r.val)
      && (r.Lines? ==> NulAt(a[..], pos) < p || p + 1 == a.Length)
  {
    hide LoadLines, CStr, NulAt;
    ghost var s0, acc := a[..], "";
    ghost var target := LoadLines(cfg, Left(s0, pos), CStr(s0, tagPtr), "", false);
    var d, done := pos, false;
    p, ok := pos, false;
    assert BlockInv(cfg, s0, a[..], pos, tagPtr, d, p, acc, target);
    while !done
      invariant a[..pos - 1] == s0[..pos - 1]
      invariant !done ==> BlockInv(cfg, s0, a[..], pos, tagPtr, d, p, acc, target)
      invariant done ==> ok == !target.NoLines?
      invariant done && ok ==>
        pos <= p && Text(a[..], p) && Left(a[..], p) == target.rest && CStr(a[..], pos) == target.val
      invariant done && target.Lines? ==> NulAt(a[..], pos) < p || p + 1 == a.Length
      decreases !done, a.Length - p
    {
      hide BlockInv;
      done, ok, d, p, acc := Turn(cfg, a, pos, tagPtr, d, p, s0, acc, target);
    }
  }
}
