/** The pattern compiler of spdlog/spdlog/include/spdlog/pattern_formatter-inl.h: a pattern becomes a list
    of formatters, and running the list is reading the pattern. */
module PatternFormatter {

  const MAX_WIDTH: nat := 64
  const SIZE_MODULUS: nat := 0x1_0000_0000_0000_0000

  datatype Side = LeftSide | RightSide | CenterSide

  /** padding_info, disabled or enabled. */
  datatype Padding = NoPadding | Padding(width: nat, side: Side, truncate: bool)

  /** Characters as they are, the name of the function that logs, or what a flag stands for. */
  datatype Formatter = Literal(text: string) | FuncName(pad: Padding) | Field(flag: char, pad: Padding)

  /** A message, as the formatters see it: what each flag and the built-in formatter of the function name
      show, with the size each declares to its padder; whether it has a source location; and what the
      custom handlers append, who are told their padding and do with it what they want. */
  datatype Env = Env(text: char -> string, size: char -> nat, func: string, funcSize: nat, source: bool,
                     custom: map<char, Padding -> string>)

  /** The buffer, or the exception that a resize to an impossible size throws. */
  datatype Out = Text(s: string) | Thrown

  const PADDED: string := "nlLtvaAbhBcCYDxmdHIMSefFEprRTXzPuioO"

  /** Flags that ignore their padding. */
  const UNPADDED: string := "+^$"

  /** Flags that append nothing, not even padding, when the message has no source location; nor does the
      formatter of the function name. */
  const OF_SOURCE: string := "@sg#"

  const BUILT_IN: string := UNPADDED + OF_SOURCE + PADDED

  // ---- padding ----

  function Spaces(n: nat): (r: string)
    ensures |r| == n && forall i :: 0 <= i < n ==> r[i] == ' '
  {
    seq(n, _ => ' ')
  }

  /** A scoped_padder around one append: what its constructor writes, the text, what its destructor
      writes or cuts off. */
  function Pad(pad: Padding, dest: string, text: string, size: nat): Out {
    if pad == NoPadding then Text(dest + text) else
      var left := pad.width as int - size as int;
      var before := if left <= 0 then 0 else if pad.side == LeftSide then left
                    else if pad.side == CenterSide then left / 2 else 0;
      var after := if left <= 0 then left else if pad.side == LeftSide then 0
                   else if pad.side == CenterSide then left / 2 + left % 2 else left;
      var written := dest + Spaces(before) + text;
      if after >= 0 then Text(written + Spaces(after))
      else if !pad.truncate then Text(written)
      // a negative size becomes a huge one
      else if |written| + after < 0 then Thrown
      else Text(written[..|written| + after])
  }

  /** A field that declares its true size is padded to its width, or cut to it, and nothing that was
      written before it is touched. */
  lemma PadIs(pad: Padding, dest: string, text: string)
    requires pad.Padding?
    ensures Pad(pad, dest, text, |text|).Text?
    ensures var r := Pad(pad, dest, text, |text|).s;
      && dest <= r
      && (|text| > pad.width ==> r == dest + if pad.truncate then text[..pad.width] else text)
      && (|text| <= pad.width ==> |r| == |dest| + pad.width && exists b: nat, a: nat :: (
            && b + a == pad.width - |text| && r == dest + Spaces(b) + text + Spaces(a)
            && (pad.side == LeftSide ==> a == 0) && (pad.side == RightSide ==> b == 0)
            && (pad.side == CenterSide ==> b <= a <= b + 1)))
  {
    var left := pad.width as int - |text| as int;
    if left >= 0 {
      var b := if pad.side == LeftSide then left else if pad.side == CenterSide then left / 2 else 0;
      var a := left - b;
      if left == 0 {
        assert Spaces(0) == [];
      }
      assert Pad(pad, dest, text, |text|) == Text(dest + Spaces(b) + text + Spaces(a));
    } else {
      assert dest + Spaces(0) + text == dest + text;
      if pad.truncate {
        assert (dest + text)[..|dest| + pad.width] == dest + text[..pad.width];
      }
    }
  }

  // ---- the padding specification ----

  predicate IsDigit(c: char) { '0' <= c <= '9' }

  function DigitValue(c: char): nat
    requires IsDigit(c)
  {
    c as int - '0' as int
  }

  function DropDigits(s: string): (r: string)
    ensures |r| <= |s|
  {
    if s != [] && IsDigit(s[0]) then DropDigits(s[1..]) else s
  }

  lemma DropFirst(s: string)
    requires s != [] && IsDigit(s[0])
    ensures DropDigits(s) == DropDigits(s[1..])
  {}

  /** Decimal value of the leading digits on top of `w`, in size_t arithmetic. */
  function DigitsValue(w: nat, s: string): nat
    decreases |s|
  {
    if s != [] && IsDigit(s[0]) then DigitsValue((w * 10 + DigitValue(s[0])) % SIZE_MODULUS, s[1..]) else w
  }

  function Min(a: nat, b: nat): nat { if a < b then a else b }

  /** The padding at the front of s, and what follows it. */
  function PadSpec(s: string): (r: (Padding, string))
    ensures |r.1| <= |s|
  {
    if s == [] then (NoPadding, s) else
      var side := if s[0] == '-' then RightSide else if s[0] == '=' then CenterSide else LeftSide;
      var t := if side == LeftSide then s else s[1..];
      if t == [] || !IsDigit(t[0]) then (NoPadding, t) else
        var u := DropDigits(t);
        var width := Min(DigitsValue(DigitValue(t[0]), t[1..]), MAX_WIDTH);
        if u != [] && u[0] == '!' then (Padding(width, side, true), u[1..]) else (Padding(width, side, false), u)
  }

  /** The digit loop of handle_padspec_. */
  method ReadDigits(pattern: string, it: nat, w: nat) returns (width: nat, it': nat)
    requires it <= |pattern|
    ensures it <= it' <= |pattern| && pattern[it'..] == DropDigits(pattern[it..])
    ensures width == DigitsValue(w, pattern[it..])
  {
    width, it' := w, it;
    while it' < |pattern| && IsDigit(pattern[it'])
      invariant it <= it' <= |pattern|
      invariant DropDigits(pattern[it'..]) == DropDigits(pattern[it..])
      invariant DigitsValue(width, pattern[it'..]) == DigitsValue(w, pattern[it..])
    {
      assert pattern[it'..][1..] == pattern[it' + 1..];
      width := (width * 10 + DigitValue(pattern[it'])) % SIZE_MODULUS;
      it' := it' + 1;
    }
  }

  /** handle_padspec_: it moves the iterator on and never past the end. */
  method HandlePadspec(pattern: string, it: nat) returns (pad: Padding, it': nat)
    requires it <= |pattern|
    ensures it <= it' <= |pattern|
    ensures (pad, pattern[it'..]) == PadSpec(pattern[it..])
    ensures pad.Padding? ==> pad.width <= MAX_WIDTH
  {
    hide DigitsValue, DropDigits;
    it' := it;
    if it' == |pattern| {
      return NoPadding, it';
    }
    ghost var s := pattern[it..];
    var side := LeftSide;
    if pattern[it'] == '-' {
      side := RightSide;
      it' := it' + 1;
    } else if pattern[it'] == '=' {
      side := CenterSide;
      it' := it' + 1;
    }
    assert pattern[it'..] == if side == LeftSide then s else s[1..];
    if it' == |pattern| || !IsDigit(pattern[it']) {
      return NoPadding, it';
    }
    ghost var t := pattern[it'..];
    assert t[1..] == pattern[it' + 1..];
    var width;
    width, it' := ReadDigits(pattern, it' + 1, DigitValue(pattern[it']));
    DropFirst(t);
    var truncate := false;
    if it' < |pattern| && pattern[it'] == '!' {
      truncate := true;
      it' := it' + 1;
      assert pattern[it'..] == DropDigits(t)[1..];
    }
    pad := Padding(Min(width, MAX_WIDTH), side, truncate);
  }

  // ---- printed specifications ----

  /** The decimal digits of n. */
  function Decimal(n: nat): (r: string)
    ensures r != [] && forall i :: 0 <= i < |r| ==> IsDigit(r[i])
  {
    var last := [(n % 10 + '0' as int) as char];
    if n < 10 then last else Decimal(n / 10) + last
  }

  /** What the digits of ds add to w, without a limit. */
  function Number(w: nat, ds: string): nat
    requires forall i :: 0 <= i < |ds| ==> IsDigit(ds[i])
    decreases |ds|
  {
    if ds == [] then w else Number(w * 10 + DigitValue(ds[0]), ds[1..])
  }

  lemma {:induction false} NumberSnoc(w: nat, ds: string, c: char)
    requires IsDigit(c) && forall i :: 0 <= i < |ds| ==> IsDigit(ds[i])
    ensures Number(w, ds + [c]) == Number(w, ds) * 10 + DigitValue(c)
    decreases |ds|
  {
    if ds == [] {
      assert [c][1..] == [];
    } else {
      assert (ds + [c])[1..] == ds[1..] + [c];
      NumberSnoc(w * 10 + DigitValue(ds[0]), ds[1..], c);
    }
  }

  lemma {:induction false} DecimalIs(n: nat)
    ensures Number(0, Decimal(n)) == n
  {
    if n >= 10 {
      DecimalIs(n / 10);
      NumberSnoc(0, Decimal(n / 10), (n % 10 + '0' as int) as char);
    } else {
      assert Decimal(n)[1..] == [];
    }
  }

  lemma WrapStep(w: nat, d: nat)
    ensures (w % SIZE_MODULUS * 10 + d) % SIZE_MODULUS == (w * 10 + d) % SIZE_MODULUS
  {}

  /** Reading in size_t arithmetic is reading without a limit, modulo 2^64. */
  lemma {:induction false} DigitsRead(w: nat, ds: string, rest: string)
    requires (forall i :: 0 <= i < |ds| ==> IsDigit(ds[i])) && (rest == [] || !IsDigit(rest[0]))
    ensures DigitsValue(w % SIZE_MODULUS, ds + rest) == Number(w, ds) % SIZE_MODULUS && DropDigits(ds + rest) == rest
    decreases |ds|
  {
    if ds == [] {
      assert ds + rest == rest;
    } else {
      assert (ds + rest)[0] == ds[0] && (ds + rest)[1..] == ds[1..] + rest;
      WrapStep(w, DigitValue(ds[0]));
      DigitsRead(w * 10 + DigitValue(ds[0]), ds[1..], rest);
    }
  }

  function SideMark(side: Side): string {
    match side case LeftSide => "" case RightSide => "-" case CenterSide => "="
  }

  /** A specification reads back as it was printed: side, width and truncation mark, with the width taken
      modulo 2^64 and then capped; that is the width that was printed, up to the cap, if and only if it did
      not wrap around to something below the cap. */
  lemma PrintedSpec(side: Side, width: nat, mark: bool, rest: string)
    requires rest == [] || (!IsDigit(rest[0]) && (mark || rest[0] != '!'))
    ensures SideMark(side) == match side case LeftSide => "" case RightSide => "-" case CenterSide => "="
    ensures var r := PadSpec(SideMark(side) + (Decimal(width) + ((if mark then "!" else "") + rest)));
      && r == (Padding(Min(width % SIZE_MODULUS, MAX_WIDTH), side, mark), rest)
      && (r.0.width == Min(width, MAX_WIDTH) <==> width < SIZE_MODULUS || width % SIZE_MODULUS >= MAX_WIDTH)
  {
    WidthReadsIff(width);
    var ds, u := Decimal(width), (if mark then "!" else "") + rest;
    DecimalIs(width);
    hide DigitsValue, DropDigits, Decimal, Number;
    assert mark ==> u[0] == '!' && u[1..] == rest;
    assert !mark ==> u == rest;
    NumberRead(ds, u);
    SideRead(side, ds + u);
  }

  lemma NumberRead(ds: string, u: string)
    requires ds != [] && (forall i :: 0 <= i < |ds| ==> IsDigit(ds[i])) && (u == [] || !IsDigit(u[0]))
    ensures var t := ds + u;
      IsDigit(t[0]) && DigitsValue(DigitValue(t[0]), t[1..]) == Number(0, ds) % SIZE_MODULUS && DropDigits(t) == u
  {
    hide DigitsValue, DropDigits, Number;
    var t := ds + u;
    assert t[0] == ds[0] && t[1..] == ds[1..] + u;
    FirstDigit(ds, u);
    DigitsRead(0, ds, u);
    DigitsRead(DigitValue(ds[0]), ds[1..], u);
  }

  lemma SideRead(side: Side, t: string)
    requires t != [] && IsDigit(t[0])
    ensures var s := SideMark(side) + t;
      var side' := if s[0] == '-' then RightSide else if s[0] == '=' then CenterSide else LeftSide;
      side' == side && (if side' == LeftSide then s else s[1..]) == t
  {}

  lemma FirstDigit(ds: string, u: string)
    requires ds != [] && forall i :: 0 <= i < |ds| ==> IsDigit(ds[i])
    ensures Number(0, ds) == Number(DigitValue(ds[0]), ds[1..]) && DigitValue(ds[0]) % SIZE_MODULUS == DigitValue(ds[0])
  {}

  lemma WidthReadsIff(width: nat)
    ensures Min(width % SIZE_MODULUS, MAX_WIDTH) == Min(width, MAX_WIDTH)
       <==> width < SIZE_MODULUS || width % SIZE_MODULUS >= MAX_WIDTH
  {}

  // ---- flags ----

  /** handle_flag_: custom handlers come first, an unknown flag shows as it is, and a '!' that was taken
      for a truncation mark turns back into the built-in flag of the function name. */
  function FlagFormatters(env: Env, flag: char, pad: Padding): seq<Formatter> {
    if flag in env.custom || flag in BUILT_IN then [Field(flag, pad)]
    else if flag == '!' then [FuncName(pad)]
    else if flag == '%' then [Literal("%")]
    else if pad.Padding? && pad.truncate then [FuncName(pad.(truncate := false)), Literal([flag])]
    else [Literal(['%', flag])]
  }

  function FormatOne(env: Env, f: Formatter, dest: Out): Out {
    if dest == Thrown then Thrown else
      match f
      case Literal(text) => Text(dest.s + text)
      case FuncName(pad) => if env.source then Pad(pad, dest.s, env.func, env.funcSize) else dest
      case Field(flag, pad) =>
        if flag in env.custom then Text(dest.s + env.custom[flag](pad))
        else if flag in OF_SOURCE && !env.source then dest
        else Pad(if flag in UNPADDED then NoPadding else pad, dest.s, env.text(flag), env.size(flag))
  }

  /** pattern_formatter::format, without the end of line. */
  function FormatAll(env: Env, fs: seq<Formatter>, dest: Out): Out {
    if fs == [] then dest else FormatOne(env, fs[|fs| - 1], FormatAll(env, fs[..|fs| - 1], dest))
  }

  /** Reading the pattern directly, character by character, from left to right. */
  function Direct(env: Env, s: string, dest: Out): Out
    decreases |s|
  {
    if s == [] then dest
    else if s[0] != '%' then Direct(env, s[1..], FormatOne(env, Literal([s[0]]), dest))
    else
      var (pad, r) := PadSpec(s[1..]);
      if r == [] then dest else Direct(env, r[1..], FormatAll(env, FlagFormatters(env, r[0], pad), dest))
  }

  // ---- what the flags show ----

  /** Which flags are which. */
  lemma FlagSets(c: char)
    ensures c in UNPADDED <==> c == '+' || c == '^' || c == '$'
    ensures c in OF_SOURCE <==> c == '@' || c == 's' || c == 'g' || c == '#'
    ensures c in BUILT_IN <==> c in UNPADDED || c in OF_SOURCE || c in PADDED
    ensures c == '!' || c == '%' ==> c !in BUILT_IN
  {
    PaddedFlags(c);
    hide PADDED;
  }

  lemma PaddedFlags(c: char)
    ensures c in PADDED <==> (
      || c == 'n' || c == 'l' || c == 'L' || c == 't' || c == 'v' || c == 'a' || c == 'A' || c == 'b' || c == 'h'
      || c == 'B' || c == 'c' || c == 'C' || c == 'Y' || c == 'D' || c == 'x' || c == 'm' || c == 'd' || c == 'H'
      || c == 'I' || c == 'M' || c == 'S' || c == 'e' || c == 'f' || c == 'F' || c == 'E' || c == 'p' || c == 'r'
      || c == 'R' || c == 'T' || c == 'X' || c == 'z' || c == 'P' || c == 'u' || c == 'i' || c == 'o' || c == 'O')
  {}

  /** A flag with any specification: custom handlers come first; of the built-in flags, some ignore the
      padding and some need a source location; '!' is the function name and '%' itself. Any other flag
      shows with its percent sign, or, after a truncation mark, behind the function name, which is then
      padded but not cut. */
  lemma OneFlag(env: Env, spec: string, pad: Padding, c: char, rest: string, d: string)
    requires PadSpec(spec + ([c] + rest)) == (pad, [c] + rest)
    ensures Direct(env, "%" + (spec + ([c] + rest)), Text(d)) == Direct(env, rest,
      if c in env.custom then Text(d + env.custom[c](pad))
      else if c in BUILT_IN then
        if c in UNPADDED then Text(d + env.text(c))
        else if c in OF_SOURCE && !env.source then Text(d)
        else Pad(pad, d, env.text(c), env.size(c))
      else if c == '!' then if env.source then Pad(pad, d, env.func, env.funcSize) else Text(d)
      else if c == '%' then Text(d + "%")
      else if pad.Padding? && pad.truncate then
        Text((if env.source then Pad(Padding(pad.width, pad.side, false), d, env.func, env.funcSize).s else d) + [c])
      else Text(d + ("%" + [c])))
  {
    hide BUILT_IN, UNPADDED, OF_SOURCE, PadSpec, Pad, FormatAll, FormatOne;
    var s, fs := "%" + (spec + ([c] + rest)), FlagFormatters(env, c, pad);
    assert s[1..] == spec + ([c] + rest) && ([c] + rest)[1..] == rest;
    FormatsInOrder(env, fs, Text(d));
    FlagSets(c);
    assert Direct(env, s, Text(d)) == Direct(env, rest, FormatAll(env, fs, Text(d)));
    if c in env.custom || c in BUILT_IN {
      FieldShows(env, c, pad, d);
    } else if c == '!' {
      NameShows(env, pad, d);
    } else if c == '%' {
      LiteralShows(env, "%", d);
    } else if pad.Padding? && pad.truncate {
      var uncut := pad.(truncate := false);
      NameShows(env, uncut, d);
      NotCut(uncut, d, env.func, env.funcSize);
      LiteralShows(env, [c], FormatOne(env, FuncName(uncut), Text(d)).s);
      assert fs == [FuncName(uncut), Literal([c])];
      assert uncut == Padding(pad.width, pad.side, false);
    } else {
      LiteralShows(env, ['%', c], d);
      assert "%" + [c] == ['%', c];
    }
  }

  lemma FieldShows(env: Env, c: char, pad: Padding, d: string)
    ensures FormatOne(env, Field(c, pad), Text(d)) == (
      if c in env.custom then Text(d + env.custom[c](pad))
      else if c in UNPADDED then Text(d + env.text(c))
      else if c in OF_SOURCE && !env.source then Text(d)
      else Pad(pad, d, env.text(c), env.size(c)))
  {
    FlagSets(c);
    hide BUILT_IN, UNPADDED, OF_SOURCE;
  }

  lemma NameShows(env: Env, pad: Padding, d: string)
    ensures FormatOne(env, FuncName(pad), Text(d)) == if env.source then Pad(pad, d, env.func, env.funcSize) else Text(d)
  {}

  lemma LiteralShows(env: Env, t: string, d: string)
    ensures FormatOne(env, Literal(t), Text(d)) == Text(d + t)
  {}

  lemma NotCut(pad: Padding, d: string, text: string, size: nat)
    requires pad.Padding? && !pad.truncate
    ensures Pad(pad, d, text, size).Text?
  {}

  lemma FormatsInOrder(env: Env, fs: seq<Formatter>, dest: Out)
    ensures |fs| == 1 ==> FormatAll(env, fs, dest) == FormatOne(env, fs[0], dest)
    ensures |fs| == 2 ==> FormatAll(env, fs, dest) == FormatOne(env, fs[1], FormatOne(env, fs[0], dest))
  {
    hide FormatOne;
    assert |fs| > 0 ==> fs[..|fs| - 1][..0] == [] && FormatAll(env, [], dest) == dest;
    assert |fs| == 2 ==> fs[..1] == [fs[0]] && [fs[0]][..0] == [];
  }

  /** A flag by itself, right behind its percent sign. */
  lemma PlainFlag(env: Env, c: char, rest: string, d: string)
    requires c != '-' && c != '=' && !('0' <= c <= '9')
    ensures Direct(env, "%" + ([c] + rest), Text(d)) == Direct(env, rest, Text(d + (
      if c in env.custom then env.custom[c](NoPadding)
      else if c in BUILT_IN then if c in OF_SOURCE && !env.source then "" else env.text(c)
      else if c == '!' then if env.source then env.func else ""
      else if c == '%' then "%"
      else "%" + [c])))
  {
    hide BUILT_IN, UNPADDED, OF_SOURCE, Direct, FlagFormatters, FormatAll, FormatOne;
    assert "" + ([c] + rest) == [c] + rest;
    assert PadSpec([c] + rest) == (NoPadding, [c] + rest);
    FlagSets(c);
    OneFlag(env, "", NoPadding, c, rest, d);
    assert d + "" == d;
    hide PadSpec;
  }

  /** A percent sign with nothing but a specification after it ends the pattern. */
  lemma NoFlag(env: Env, spec: string, pad: Padding, dest: Out)
    requires PadSpec(spec) == (pad, "")
    ensures Direct(env, "%" + spec, dest) == dest
  {
    assert ("%" + spec)[1..] == spec;
  }

  /** t with every percent sign doubled. */
  function Escaped(t: string): string {
    if t == [] then [] else (if t[0] == '%' then "%%" else [t[0]]) + Escaped(t[1..])
  }

  /** t with every percent sign replaced by h. */
  function Replaced(t: string, h: string): string {
    if t == [] then [] else (if t[0] == '%' then h else [t[0]]) + Replaced(t[1..], h)
  }

  lemma {:induction false} EscapedShows(env: Env, t: string, d: string)
    ensures Direct(env, Escaped(t), Text(d))
         == Text(d + Replaced(t, if '%' in env.custom then env.custom['%'](NoPadding) else "%"))
  {
    hide Direct;
    var h := if '%' in env.custom then env.custom['%'](NoPadding) else "%";
    if t == [] {
      DirectEnds(env, Text(d));
      assert d + [] == d;
    } else if t[0] == '%' {
      assert "%%" + Escaped(t[1..]) == "%" + (['%'] + Escaped(t[1..]));
      FlagSets('%');
      PlainFlag(env, '%', Escaped(t[1..]), d);
      EscapedShows(env, t[1..], d + h);
      assert d + h + Replaced(t[1..], h) == d + (h + Replaced(t[1..], h));
    } else {
      DirectChar(env, t[0], Escaped(t[1..]), d);
      EscapedShows(env, t[1..], d + [t[0]]);
      assert d + [t[0]] + Replaced(t[1..], h) == d + ([t[0]] + Replaced(t[1..], h));
    }
  }

  lemma DirectEnds(env: Env, dest: Out)
    ensures Direct(env, "", dest) == dest
  {}

  lemma DirectChar(env: Env, c: char, rest: string, d: string)
    requires c != '%'
    ensures Direct(env, [c] + rest, Text(d)) == Direct(env, rest, Text(d + [c]))
  {
    assert ([c] + rest)[1..] == rest;
  }

  lemma {:induction false} ReplacedLength(t: string, h: string)
    ensures |h| <= 1 ==> |Replaced(t, h)| <= |t|
    ensures |h| >= 1 ==> |Replaced(t, h)| >= |t|
    ensures '%' in t && h == [] ==> |Replaced(t, h)| < |t|
    ensures '%' in t && |h| > 1 ==> |Replaced(t, h)| > |t|
  {
    if t != [] {
      ReplacedLength(t[1..], h);
    }
  }

  lemma {:induction false} ReplacedIff(t: string, h: string)
    ensures Replaced(t, h) == t <==> '%' !in t || h == "%"
  {
    ReplacedLength(t, h);
    if t != [] {
      var u := Replaced(t[1..], h);
      ReplacedIff(t[1..], h);
      assert t == [t[0]] + t[1..];
      if t[0] == '%' && |h| == 1 {
        assert (h + u)[0] == h[0] && (h + u)[1..] == u;
      } else if t[0] != '%' {
        assert ([t[0]] + u)[0] == t[0] && ([t[0]] + u)[1..] == u;
      }
    }
  }

  /** Escaping: the pattern that has every percent sign of a text doubled appends exactly that text, unless
      the text has one and a custom handler for '%' shows something else. */
  lemma EscapingIff(env: Env, t: string, d: string)
    ensures Direct(env, Escaped(t), Text(d)) == Text(d + t)
       <==> '%' !in t || '%' !in env.custom || env.custom['%'](NoPadding) == "%"
  {
    var h := if '%' in env.custom then env.custom['%'](NoPadding) else "%";
    EscapedShows(env, t, d);
    ReplacedIff(t, h);
    hide Direct, Replaced;
    var u := Replaced(t, h);
    assert (d + u)[|d|..] == u && (d + t)[|d|..] == t;
  }

  /** A side without digits after it is no padding, but its mark is gone. */
  lemma BareSide(side: Side, rest: string)
    requires rest == [] || !('0' <= rest[0] <= '9')
    requires side == LeftSide ==> rest == [] || (rest[0] != '-' && rest[0] != '=')
    ensures PadSpec(SideMark(side) + rest) == (NoPadding, rest)
  {
    assert side == LeftSide ==> "" + rest == rest;
    assert side != LeftSide ==> (SideMark(side) + rest)[1..] == rest;
  }

  /** Two digits are tens and ones. */
  lemma TwoDigits(a: nat, b: nat, rest: string)
    requires a < 10 && b < 10 && (rest == [] || (rest[0] != '!' && !('0' <= rest[0] <= '9')))
    ensures PadSpec([(48 + a) as char, (48 + b) as char] + rest)
         == (Padding(if 10 * a + b <= 64 then 10 * a + b else 64, LeftSide, false), rest)
  {
    var t := [(48 + a) as char, (48 + b) as char] + rest;
    assert t[1..] == [(48 + b) as char] + rest && t[2..] == rest && t[1..][1..] == rest;
    assert DigitsValue(10 * a + b, rest) == 10 * a + b && DropDigits(rest) == rest;
    assert DropDigits(t[1..]) == rest;
    assert DigitsValue(a, t[1..]) == 10 * a + b;
  }

  // ---- the compiler ----

  lemma {:induction false} FormatConcat(env: Env, a: seq<Formatter>, b: seq<Formatter>, dest: Out)
    ensures FormatAll(env, a + b, dest) == FormatAll(env, b, FormatAll(env, a, dest))
  {
    if b == [] {
      assert a + b == a;
    } else {
      assert (a + b)[..|a + b| - 1] == a + b[..|b| - 1];
      FormatConcat(env, a, b[..|b| - 1], dest);
    }
  }

  /** The formatters so far, with the characters that are not yet in one of them. */
  function Flushed(fs: seq<Formatter>, chars: string): seq<Formatter> {
    if chars == [] then fs else fs + [Literal(chars)]
  }

  lemma OneMoreChar(env: Env, fs: seq<Formatter>, chars: string, c: char, dest: Out)
    ensures FormatAll(env, Flushed(fs, chars + [c]), dest) == FormatOne(env, Literal([c]), FormatAll(env, Flushed(fs, chars), dest))
  {
    assert (fs + [Literal(chars + [c])])[..|fs|] == fs && (fs + [Literal(chars)])[..|fs|] == fs;
    var d := FormatAll(env, fs, dest);
    if d.Text? {
      assert d.s + chars + [c] == d.s + (chars + [c]);
    }
  }

  /** compile_pattern_: running what it compiles appends what reading the pattern directly appends, for
      every message and whatever has been written before. */
  method Compile(env: Env, pattern: string) returns (formatters: seq<Formatter>)
    ensures forall dest :: FormatAll(env, formatters, dest) == Direct(env, pattern, dest)
  {
    hide PadSpec, FlagFormatters, FormatOne;
    formatters := [];
    var chars := "";
    var it := 0;
    assert pattern[0..] == pattern;
    while it < |pattern|
      invariant 0 <= it <= |pattern|
      invariant forall dest ::
        Direct(env, pattern[it..], FormatAll(env, Flushed(formatters, chars), dest)) == Direct(env, pattern, dest)
      decreases |pattern| - it
    {
      ghost var s, fs := pattern[it..], Flushed(formatters, chars);
      assert s[0] == pattern[it] && s[1..] == pattern[it + 1..];
      if pattern[it] == '%' {
        formatters, chars := Flushed(formatters, chars), "";
        var pad, it' := HandlePadspec(pattern, it + 1);
        it := it';
        if it == |pattern| {
          assert PadSpec(s[1..]).1 == [];
          return;
        }
        ghost var r := pattern[it..];
        assert r[0] == pattern[it] && r[1..] == pattern[it + 1..];
        formatters := formatters + FlagFormatters(env, pattern[it], pad);
        forall dest ensures Direct(env, pattern[it + 1..], FormatAll(env, formatters, dest)) == Direct(env, pattern, dest) {
          FormatConcat(env, fs, FlagFormatters(env, pattern[it], pad), dest);
        }
      } else {
        forall dest ensures Direct(env, pattern[it + 1..], FormatAll(env, Flushed(formatters, chars + [pattern[it]]), dest))
            == Direct(env, pattern, dest) {
          OneMoreChar(env, formatters, chars, pattern[it], dest);
        }
        chars := chars + [pattern[it]];
      }
      it := it + 1;
    }
    formatters := Flushed(formatters, chars);
  }

  /** The loop of pattern_formatter::format. */
  method Format(env: Env, formatters: seq<Formatter>, eol: string, dest: string) returns (out: Out)
    ensures var written := FormatAll(env, formatters, Text(dest));
      out == if written.Text? then Text(written.s + eol) else Thrown
  {
    out := Text(dest);
    assert formatters[..0] == [];
    for i := 0 to |formatters|
      invariant out == FormatAll(env, formatters[..i], Text(dest))
    {
      assert formatters[..i + 1][..i] == formatters[..i];
      out := FormatOne(env, formatters[i], out);
    }
    assert formatters[..|formatters|] == formatters;
    out := FormatOne(env, Literal(eol), out);
  }

  // ---- nothing that was written is touched ----

  /** Every built-in flag declares the true length of what it shows. */
  ghost predicate TrueSizes(env: Env) {
    (forall c :: env.size(c) == |env.text(c)|) && env.funcSize == |env.func|
  }

  /** Then formatting throws nothing and leaves alone what the buffer held. */
  lemma {:induction false} AppendsOnly(env: Env, fs: seq<Formatter>, dest: string)
    requires TrueSizes(env)
    ensures FormatAll(env, fs, Text(dest)).Text? && dest <= FormatAll(env, fs, Text(dest)).s
  {
    if fs != [] {
      var front := fs[..|fs| - 1];
      AppendsOnly(env, front, dest);
      OneAppends(env, fs[|fs| - 1], FormatAll(env, front, Text(dest)).s);
    }
  }

  lemma OneAppends(env: Env, f: Formatter, d: string)
    requires TrueSizes(env)
    ensures FormatOne(env, f, Text(d)).Text? && d <= FormatOne(env, f, Text(d)).s
  {
    if f.Field? && f.pad.Padding? {
      PadIs(f.pad, d, env.text(f.flag));
    }
    if f.FuncName? && f.pad.Padding? {
      PadIs(f.pad, d, env.func);
    }
  }

  /** In general a field leaves what stands before it alone if and only if it does not both truncate and
      declare more than its text and its width together; if it does, it cuts into what was there, or
      throws when there is not enough to cut. */
  lemma PadPreservesIff(pad: Padding, dest: string, text: string, size: nat)
    requires pad.Padding?
    ensures var r := Pad(pad, dest, text, size);
      && (r.Text? && dest <= r.s <==> !(pad.truncate && size > pad.width + |text|))
      && (r == Thrown <==> pad.truncate && size > pad.width + |text| + |dest|)
  {
    if size > pad.width && pad.truncate {
      assert dest + Spaces(0) + text == dest + text;
    }
  }
}
