/** The text buffer that opencv-test/play-frame/SimpleIni.h parses in place: scanning loops over a
    NUL-terminated array, and the strings that NULs written into it cut out. */
module IniBuffer {
  import opened IniText

  const NUL: char := '\0'

  /** From pos to the terminator in the last cell the buffer holds text without NULs. */
  ghost predicate Text(s: seq<char>, pos: nat) {
    pos < |s| && s[|s| - 1] == NUL && forall i :: pos <= i < |s| - 1 ==> s[i] != NUL
  }

  /** The text that is still to be parsed. */
  function Left(s: seq<char>, pos: nat): string
    requires pos < |s|
  {
    s[pos..|s| - 1]
  }

  /** The first NUL at or after p. */
  function NulAt(s: seq<char>, p: nat): (q: nat)
    requires p <= |s|
    ensures p <= q <= |s| && (q < |s| ==> s[q] == NUL) && forall i :: p <= i < q ==> s[i] != NUL
    decreases |s| - p
  {
    if p == |s| || s[p] == NUL then p else NulAt(s, p + 1)
  }

  /** The C string at p. */
  function CStr(s: seq<char>, p: nat): string
    requires p <= |s|
  {
    s[p..NulAt(s, p)]
  }

  lemma CStrIs(s: seq<char>, p: nat, q: nat)
    requires p <= q < |s| && s[q] == NUL && forall i :: p <= i < q ==> s[i] != NUL
    ensures NulAt(s, p) == q && CStr(s, p) == s[p..q]
  {}

  /** Strings that end before pos do not change when only cells from pos on change. */
  lemma CStrStable(s: seq<char>, s': seq<char>, p: nat, pos: nat)
    requires |s| == |s'| && pos <= |s| && s[..pos] == s'[..pos] && p <= |s| && NulAt(s, p) < pos
    ensures NulAt(s', p) == NulAt(s, p) && CStr(s', p) == CStr(s, p)
  {
    var q := NulAt(s, p);
    assert forall i :: 0 <= i < pos ==> s[i] == s[..pos][i] && s'[i] == s'[..pos][i];
    CStrIs(s', p, q);
  }

  lemma LeftTail(s: seq<char>, pos: nat)
    requires pos + 1 < |s|
    ensures Left(s, pos) != [] && Left(s, pos)[0] == s[pos] && Left(s, pos)[1..] == Left(s, pos + 1)
  {}

  // ---- scanning ----

  method SkipSpaces(a: array<char>, pos: nat) returns (q: nat)
    requires Text(a[..], pos)
    ensures pos <= q && Text(a[..], q) && Left(a[..], q) == DropSpaces(Left(a[..], pos))
  {
    q := pos;
    while a[q] != NUL && IsSpace(a[q])
      invariant pos <= q && Text(a[..], q)
      invariant DropSpaces(Left(a[..], q)) == DropSpaces(Left(a[..], pos))
      decreases a.Length - q
    {
      LeftTail(a[..], q);
      q := q + 1;
    }
    if q + 1 < a.Length {
      LeftTail(a[..], q);
    }
  }

  method SkipBlanks(a: array<char>, pos: nat) returns (q: nat)
    requires Text(a[..], pos)
    ensures pos <= q && Text(a[..], q) && Left(a[..], q) == DropBlanks(Left(a[..], pos))
  {
    q := pos;
    while a[q] != NUL && !IsNewLine(a[q]) && IsSpace(a[q])
      invariant pos <= q && Text(a[..], q)
      invariant DropBlanks(Left(a[..], q)) == DropBlanks(Left(a[..], pos))
      decreases a.Length - q
    {
      LeftTail(a[..], q);
      q := q + 1;
    }
    if q + 1 < a.Length {
      LeftTail(a[..], q);
    }
  }

  /** Run to a newline, or to the delimiter of this kind of scan, or to the end. */
  method Scan(k: Stop, a: array<char>, pos: nat) returns (q: nat)
    requires Text(a[..], pos)
    ensures pos <= q && Text(a[..], q)
    ensures Left(a[..], q) == Drop(k, Left(a[..], pos)) && a[pos..q] == Take(k, Left(a[..], pos))
    ensures q + 1 < a.Length ==> Stops(k, a[q])
    ensures q > pos ==> !Stops(k, a[pos])
  {
    hide Take;
    q := pos;
    ghost var s := Left(a[..], pos);
    while a[q] != NUL && !Stops(k, a[q])
      invariant pos <= q && Text(a[..], q)
      invariant Drop(k, Left(a[..], q)) == Drop(k, s)
      invariant q > pos ==> !Stops(k, a[pos])
      decreases a.Length - q
    {
      LeftTail(a[..], q);
      q := q + 1;
    }
    if q + 1 < a.Length {
      LeftTail(a[..], q);
    }
    assert s[q - pos..] == Left(a[..], q) && s[..q - pos] == a[pos..q];
    TakeIs(k, s, q - pos);
  }

  lemma TakeIs(k: Stop, s: string, n: nat)
    requires n <= |s| && Drop(k, s) == s[n..]
    ensures Take(k, s) == s[..n]
  {
    var t := Take(k, s);
    TakeThenDrop(k, s);
    assert t == (t + Drop(k, s))[..|t|];
  }

  /** SkipNewLine. */
  method SkipLineEnd(a: array<char>, pos: nat) returns (q: nat)
    requires Text(a[..], pos) && pos + 1 < a.Length
    ensures pos < q <= pos + 2 && Text(a[..], q) && Left(a[..], q) == SkipNewLine(Left(a[..], pos))
    ensures q == pos + 2 <==> a[pos] == '\r' && a[pos + 1] == '\n'
  {
    ghost var s := Left(a[..], pos);
    LeftTail(a[..], pos);
    if a[pos] == '\r' && a[pos + 1] == '\n' {
      assert pos + 2 < a.Length;
      assert s[1] == '\n' && s[2..] == Left(a[..], pos + 2);
      q := pos + 2;
    } else {
      assert |s| > 1 ==> s[1] == a[pos + 1];
      q := pos + 1;
    }
  }

  /** Walk back over trailing white space. */
  method TrimEnd(a: array<char>, lo: nat, hi: nat) returns (t: nat)
    requires lo <= hi <= a.Length
    ensures lo <= t <= hi && a[lo..t] == TrimRight(a[lo..hi])
  {
    t := hi;
    while t > lo && IsSpace(a[t - 1])
      invariant lo <= t <= hi && TrimRight(a[lo..t]) == TrimRight(a[lo..hi])
    {
      assert a[lo..t][..t - 1 - lo] == a[lo..t - 1];
      t := t - 1;
    }
  }

  /** The same for a tag line, whose first character stays. */
  method TrimTagEnd(a: array<char>, lo: nat, hi: nat) returns (t: nat)
    requires lo <= hi <= a.Length
    ensures lo <= t <= hi && a[lo..t] == TrimTail(a[lo..hi])
  {
    t := hi;
    while t > lo + 1 && IsSpace(a[t - 1])
      invariant lo <= t <= hi && TrimTail(a[lo..t]) == TrimTail(a[lo..hi])
    {
      assert a[lo..t][..t - 1 - lo] == a[lo..t - 1];
      t := t - 1;
    }
  }

  /** memmove of one line to the left, with a NUL after it. */
  method MoveDown(a: array<char>, d: nat, c: nat, len: nat)
    requires d < c && c + len < a.Length
    modifies a
    ensures a[d..d + len] == old(a[c..c + len]) && a[d + len] == NUL
    ensures a[..d] == old(a[..d]) && a[c + len..] == old(a[c + len..])
  {
    ghost var s := a[..];
    for i := 0 to len
      invariant forall k :: 0 <= k < d || c + i <= k < a.Length ==> a[k] == s[k]
      invariant forall k :: d <= k < d + i ==> a[k] == s[k + (c - d)]
    {
      a[d + i] := a[c + i];
    }
    a[d + len] := NUL;
  }
}
