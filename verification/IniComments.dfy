/** LoadMultiLineText of opencv-test/play-frame/SimpleIni.h without a tag, in place: comment lines are
    moved together and ended with a NUL. */
module IniComments {
  import opened IniText
  import opened IniBuffer
  import opened IniBlocks

  /** Between two lines: the lines so far stand together from pos to d, the text goes on at c, and what is
      still to come decides the result. */
  ghost predicate CommentInv(s0: seq<char>, s: seq<char>, pos: nat, d: nat, c: nat, acc: string, blanks: bool, r: Comment) {
    && |s| == |s0| && pos <= d <= c < |s| && Text(s, c) && s[..pos] == s0[..pos]
    && s[pos..d] == acc && NoNul(acc) && (pos < c ==> pos < d) && (pos == c ==> c + 1 < |s| && IsComment(s[c]))
    && CommentRun(Left(s, c), acc, blanks) == r
  }

  /** The string from pos is the comment, it ends before q, and the text goes on at q. */
  ghost predicate CommentRead(s0: seq<char>, s: seq<char>, pos: nat, q: nat, r: Comment) {
    && |s| == |s0| && pos < q < |s| && s[..pos] == s0[..pos] && Text(s, q) && Left(s, q) == r.rest
    && CStr(s, pos) == r.text && (NulAt(s, pos) < q || q + 1 == |s|)
  }

  // ---- blank lines ----

  lemma SpacesBehindNewLine(s: string)
    requires s != [] && IsNewLine(s[0])
    ensures DropSpaces(SkipNewLine(s)) == DropSpaces(s)
  {}

  /** Look ahead over white space and count the newlines in it. */
  method CountBlank(a: array<char>, c: nat) returns (q: nat, n: nat)
    requires Text(a[..], c)
    ensures c <= q && Text(a[..], q) && Left(a[..], q) == DropSpaces(Left(a[..], c))
    ensures n == BlankLines(Left(a[..], c)) && n <= q - c
  {
    hide SkipNewLine;
    ghost var s := Left(a[..], c);
    q, n := c, 0;
    while a[q] != NUL && IsSpace(a[q])
      invariant c <= q && Text(a[..], q) && n <= q - c
      invariant DropSpaces(Left(a[..], q)) == DropSpaces(s) && n + BlankLines(Left(a[..], q)) == BlankLines(s)
      decreases a.Length - q
    {
      LeftTail(a[..], q);
      if IsNewLine(a[q]) {
        SpacesBehindNewLine(Left(a[..], q));
        q := SkipLineEnd(a, q);
        n := n + 1;
      } else {
        q := q + 1;
      }
    }
    if q + 1 < a.Length {
      LeftTail(a[..], q);
    }
  }

  /** Blank lines between two comments are kept as newlines behind the comment so far. */
  method PutNewLines(a: array<char>, pos: nat, d: nat, n: nat, ghost c: nat)
    requires pos <= d && d + n <= c < a.Length && Text(a[..], c)
    modifies a
    ensures a[..pos] == old(a[..pos]) && a[pos..d + n] == old(a[pos..d]) + NewLines(n)
    ensures Text(a[..], c) && Left(a[..], c) == old(Left(a[..], c))
  {
    ghost var s := a[..];
    for i := 0 to n
      invariant a[..d] == s[..d] && a[c..] == s[c..] && forall k :: d <= k < d + i ==> a[k] == '\n'
    {
      a[d + i] := '\n';
    }
    SamePrefix(a[..], s, pos, d);
    assert a[d..d + n] == NewLines(n);
    assert a[pos..d + n] == a[pos..d] + a[d..d + n];
    SameFrom(s, a[..], c);
  }

  lemma SameFrom(s: seq<char>, t: seq<char>, c: nat)
    requires |s| == |t| && c < |s| && t[c..] == s[c..] && Text(s, c)
    ensures Text(t, c) && Left(t, c) == Left(s, c)
  {
    assert forall i :: c <= i < |s| ==> t[i] == t[c..][i - c] == s[c..][i - c] == s[i];
  }

  // ---- the loop ----

  /** The run ends here: a NUL takes the place of its last newline. */
  method EndComment(a: array<char>, pos: nat, d: nat, c: nat, ghost s0: seq<char>, ghost acc: string, ghost blanks: bool,
                    ghost r: Comment)
    requires CommentInv(s0, a[..], pos, d, c, acc, blanks, r) && pos < d && r == Comment(acc[..|acc| - 1], Left(a[..], c))
    modifies a
    ensures CommentRead(s0, a[..], pos, c, r)
  {
    hide CommentRun, CStr, NulAt;
    ghost var s := a[..];
    a[d - 1] := NUL;
    AccEnds(s, a[..], pos, d, acc);
    EndsIsCStr(a[..], pos, d - 1, acc[..|acc| - 1]);
    assert a[c..] == s[c..];
    SameFrom(s, a[..], c);
  }

  lemma CommentLine(s: string, acc: string, blanks: bool)
    requires s != [] && IsComment(s[0])
    ensures var line, z := Take(AtNewLine, s), Drop(AtNewLine, s);
      CommentRun(s, acc, blanks)
        == if z == [] then Comment(acc + line, []) else CommentRun(SkipNewLine(z), acc + line + "\n", blanks)
  {}

  lemma CommentGap(s: string, acc: string, blanks: bool)
    requires (s == [] || !IsComment(s[0])) && acc != []
    ensures var t := DropSpaces(s);
      CommentRun(s, acc, blanks)
        == if blanks && t != [] && IsComment(t[0]) then CommentRun(t, acc + NewLines(BlankLines(s)), blanks)
           else Comment(acc[..|acc| - 1], s)
  {}

  /** One comment line, from c to its end. */
  method CommentTurn(a: array<char>, pos: nat, d: nat, c: nat, ghost s0: seq<char>, ghost acc: string, ghost blanks: bool,
                     ghost r: Comment)
      returns (done: bool, d': nat, q: nat, ghost acc': string)
    requires CommentInv(s0, a[..], pos, d, c, acc, blanks, r) && c + 1 < a.Length && IsComment(a[c])
    modifies a
    ensures if done then CommentRead(s0, a[..], pos, q, r)
      else c < q && CommentInv(s0, a[..], pos, d', q, acc', blanks, r)
  {
    hide CommentRun, CStr, NulAt, Take, Drop, SkipNewLine, NoNul;
    LeftTail(a[..], c);
    CommentLine(Left(a[..], c), acc, blanks);
    var p := Scan(AtNewLine, a, c);
    ghost var s, line := a[..], a[c..p];
    assert line == s[c..p];
    LineNoNul(s, c, p);
    assert c < p by { assert !IsNewLine(s[c]); }
    var cEnd := a[p];
    Place(a, d, c, p);
    SamePrefix(a[..], s, pos, d);
    d', q, acc', done := d, p, acc, cEnd == NUL;
    if done {
      EmptyLeft(s, a[..], p);
      LastLine(a[..], pos, d, p - c, acc, line);
    } else {
      LeftTail(s, p);
      d', q := TakeLine(a, pos, d, c, p, cEnd, s, acc, line);
      acc' := acc + line + "\n";
      Joined(acc, line);
    }
  }

  /** White space behind a comment line: on to the next comment, or the end of the run. */
  method GapTurn(a: array<char>, pos: nat, d: nat, c: nat, blanks: bool, ghost s0: seq<char>, ghost acc: string, ghost r: Comment)
      returns (done: bool, d': nat, q: nat, ghost acc': string)
    requires CommentInv(s0, a[..], pos, d, c, acc, blanks, r) && !IsComment(a[c])
    modifies a
    ensures if done then CommentRead(s0, a[..], pos, q, r)
      else c < q && CommentInv(s0, a[..], pos, d', q, acc', blanks, r)
  {
    hide CommentRun, CStr, NulAt, DropSpaces, BlankLines, NewLines;
    ghost var s := a[..];
    GapText(s, c);
    CommentGap(Left(s, c), acc, blanks);
    d', q, acc', done := d, c, acc, true;
    if blanks {
      var e, n := CountBlank(a, c);
      if IsComment(a[e]) {
        LeftTail(s, e);
        PutNewLines(a, pos, d, n, e);
        d', q, acc', done := d + n, e, acc + NewLines(n), false;
        NewLinesNoNul(acc, n);
        return;
      }
      GapText(s, e);
    }
    EndComment(a, pos, d, c, s0, acc, blanks, r);
  }

  lemma GapText(s: seq<char>, c: nat)
    requires Text(s, c) && !IsComment(s[c])
    ensures Left(s, c) == [] || !IsComment(Left(s, c)[0])
  {}

  lemma NewLinesNoNul(acc: string, n: nat)
    requires NoNul(acc)
    ensures NoNul(acc + NewLines(n)) && |NewLines(n)| == n
  {}

  /** A run of comment lines is read, and nothing before it is touched. */
  method LoadComment(a: array<char>, pos: nat, blanks: bool) returns (q: nat)
    requires Text(a[..], pos) && pos + 1 < a.Length && IsComment(a[pos])
    modifies a
    ensures CommentRead(old(a[..]), a[..], pos, q, CommentRun(old(Left(a[..], pos)), "", blanks))
  {
    hide CommentRun, CStr, NulAt;
    ghost var s0, acc := a[..], "";
    ghost var r := CommentRun(Left(s0, pos), "", blanks);
    var d, done := pos, false;
    q := pos;
    assert CommentInv(s0, a[..], pos, d, q, acc, blanks, r);
    while !done
      invariant if done then CommentRead(s0, a[..], pos, q, r) else CommentInv(s0, a[..], pos, d, q, acc, blanks, r)
      decreases !done, a.Length - q
    {
      assert q < a.Length;
      if IsComment(a[q]) {
        CommentNotLast(a[..], q);
        done, d, q, acc := CommentTurn(a, pos, d, q, s0, acc, blanks, r);
      } else {
        done, d, q, acc := GapTurn(a, pos, d, q, blanks, s0, acc, r);
      }
    }
  }

  lemma CommentNotLast(s: seq<char>, c: nat)
    requires Text(s, c) && IsComment(s[c])
    ensures c + 1 < |s|
  {}
}
