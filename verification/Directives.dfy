/**
 * The format language of `vsnprintf`: what its state machine makes of a format string, and that on
 * every well-formed format this is what the directives mean.
 */
module Directives {
  import opened Format

  /** An argument: the word passed and, if that is the address of a string, the characters there. */
  datatype Arg = Arg(word: nat, text: Str)

  datatype Modifier = NoMod | Char | Short | Long | LongLong | IntMax | PtrDiff | SizeT

  /** What has been printed in the end, and whether a number in the format was too large. */
  datatype Printed = Printed(text: Str, overflow: bool)

  function Before(s: Str, p: Printed): (r: Printed) { Printed(s + p.text, p.overflow) }

  const NOTHING := Printed([], false)

  const NUL: char := '\0'

  // ----- arguments -----

  function Next(args: seq<Arg>): Arg { if args == [] then Arg(0, []) else args[0] }

  function Others(args: seq<Arg>): seq<Arg> { if args == [] then [] else args[1..] }

  function Signed(w: nat, range: nat): (v: int) {
    if range > 0 && w % range >= range / 2 then w % range - range else if range > 0 then w % range else 0
  }

  /** The range of values a length modifier selects. */
  function Range(m: Modifier): (r: nat)
    ensures 0 < r
  {
    match m case Char => 0x100 case Short => 0x1_0000 case _ => WORD
  }

  function UntilNul(s: Str): (r: Str)
    ensures r <= s && NUL !in r
  {
    if s == [] || s[0] == NUL then [] else [s[0]] + UntilNul(s[1..])
  }

  function TextOf(a: Arg): (s: Str)
    ensures NUL !in s
  {
    if a.word % WORD == 0 then "(null)" else UntilNul(a.text)
  }

  // ----- characters -----

  predicate IsFlag(c: char) { c == '-' || c == '+' || c == ' ' || c == '#' || c == '0' || c == '\'' }

  predicate IsDigit(c: char) { '0' <= c <= '9' }

  function AddFlag(fl: Flags, c: char): Flags
    requires IsFlag(c)
  {
    if c == '-' then fl.(minus := true) else if c == '+' then fl.(plus := true)
    else if c == ' ' then fl.(space := true) else if c == '#' then fl.(num := true)
    else if c == '0' then fl.(zero := true) else fl.(quote := true)
  }

  /** Whether appending a digit takes a number past INT_MAX. */
  predicate Overflows(n: nat, d: nat)
    requires d < 10
  {
    n > (INT_MAX - d) / 10
  }

  lemma OverflowsExactly(n: nat, d: nat)
    requires d < 10
    ensures Overflows(n, d) <==> 10 * n + d > INT_MAX
  {
  }

  predicate TakesArg(c: char) {
    c == 'd' || c == 'i' || c == 'X' || c == 'x' || c == 'o' || c == 'u' || c == 'c' || c == 's' || c == 'p' || c == 'n'
  }

  predicate Unsigned(c: char) { c == 'X' || c == 'x' || c == 'o' || c == 'u' }

  function BaseOf(c: char): (b: nat)
    ensures Base(b)
  {
    if c == 'X' || c == 'x' then 16 else if c == 'o' then 8 else 10
  }

  /** The field a conversion prints. The width does not apply to `c`, and `n` prints nothing. */
  function FieldOf(c: char, a: Arg, fl: Flags, width: nat, precision: int, m: Modifier): (r: Str)
    requires -1 <= precision
  {
    if c == 'd' || c == 'i' then IntField(Signed(a.word, Range(m)), 10, width, precision, fl, false, false)
    else if Unsigned(c) then IntField(a.word % Range(m), BaseOf(c), width, precision, fl, true, c == 'X')
    else if c == 'c' then [(a.word % 0x100) as char]
    else if c == 's' then Padded(Clipped(TextOf(a), precision), width, fl.minus)
    else if c == 'p' then
      if a.word % WORD == 0 then Padded("(nil)", width, fl.minus)
      else IntField(a.word % WORD, 16, width, precision, fl.(num := true), true, false)
    else if c == '%' then ['%']
    else []
  }

  // ----- the state machine, one function per state; the format goes up to its NUL -----

  function Text(f: Str, args: seq<Arg>): (r: Printed)
    decreases |f|, 6
  {
    if f == [] then NOTHING
    else if f[0] == '%' then InFlags(f[1..], args, NO_FLAGS)
    else Before([f[0]], Text(f[1..], args))
  }

  function InFlags(f: Str, args: seq<Arg>, fl: Flags): (r: Printed)
    decreases |f|, 5
  {
    if f == [] then NOTHING
    else if IsFlag(f[0]) then InFlags(f[1..], args, AddFlag(fl, f[0]))
    else InWidth(f, args, fl, 0)
  }

  function InWidth(f: Str, args: seq<Arg>, fl: Flags, width: nat): (r: Printed)
    decreases |f|, 4
  {
    if f == [] then NOTHING
    else if IsDigit(f[0]) then
      if Overflows(width, DigitValue(f[0])) then Printed([], true)
      else InWidth(f[1..], args, fl, 10 * width + DigitValue(f[0]))
    else if f[0] == '*' then
      var w := Signed(Next(args).word, WORD);
      InDot(f[1..], Others(args), if w < 0 then fl.(minus := true) else fl, if w < 0 then -w else w)
    else InDot(f, args, fl, width)
  }

  function InDot(f: Str, args: seq<Arg>, fl: Flags, width: nat): (r: Printed)
    decreases |f|, 3
  {
    if f == [] then NOTHING
    else if f[0] == '.' then InPrecision(f[1..], args, fl, width, 0)
    else InMod(f, args, fl, width, -1)
  }

  function InPrecision(f: Str, args: seq<Arg>, fl: Flags, width: nat, precision: nat): (r: Printed)
    decreases |f|, 2
  {
    if f == [] then NOTHING
    else if IsDigit(f[0]) then
      if Overflows(precision, DigitValue(f[0])) then Printed([], true)
      else InPrecision(f[1..], args, fl, width, 10 * precision + DigitValue(f[0]))
    else if f[0] == '*' then
      InMod(f[1..], Others(args), fl, width, Max(-1, Signed(Next(args).word, WORD)))
    else InMod(f, args, fl, width, precision)
  }

  function InMod(f: Str, args: seq<Arg>, fl: Flags, width: nat, precision: int): (r: Printed)
    requires -1 <= precision
    decreases |f|, 1
  {
    if f == [] then NOTHING
    else
      var m := ModAt(f);
      InConv(f[ModLength(m)..], args, fl, width, precision, m)
  }

  /** The length modifier a string starts with. */
  function ModAt(f: Str): (m: Modifier)
    requires f != []
    ensures ModLength(m) <= |f|
  {
    if f[0] == 'h' then if |f| > 1 && f[1] == 'h' then Char else Short
    else if f[0] == 'l' then if |f| > 1 && f[1] == 'l' then LongLong else Long
    else if f[0] == 'j' then IntMax
    else if f[0] == 't' then PtrDiff
    else if f[0] == 'z' then SizeT
    else NoMod
  }

  function ModLength(m: Modifier): nat {
    match m case NoMod => 0 case Char => 2 case LongLong => 2 case _ => 1
  }

  function InConv(f: Str, args: seq<Arg>, fl: Flags, width: nat, precision: int, m: Modifier): (r: Printed)
    requires -1 <= precision
    decreases |f|, 0
  {
    if f == [] then NOTHING
    else
      Before(FieldOf(f[0], Next(args), fl, width, precision, m),
             Text(f[1..], if TakesArg(f[0]) then Others(args) else args))
  }

  // ----- formats as sequences of items -----

  datatype Size = Unset | Number(n: nat) | Star

  datatype Item =
    | Plain(c: char)
    | Directive(flags: Str, width: Size, dot: bool, precision: Size, mod: Modifier, conv: char)

  predicate AllFlags(fs: Str) { forall k :: 0 <= k < |fs| ==> IsFlag(fs[k]) }

  predicate Sane(i: Item) {
    match i
    case Plain(c) => c != '%' && c != NUL
    case Directive(flags, width, dot, precision, mod, conv) =>
      && AllFlags(flags)
      && (width.Number? ==> 1 <= width.n <= INT_MAX)
      && (precision.Number? ==> precision.n <= INT_MAX)
      && (!dot ==> precision == Unset)
      && (TakesArg(conv) || conv == '%')
  }

  predicate AllSane(items: seq<Item>) { forall k :: 0 <= k < |items| ==> Sane(items[k]) }

  function SpellSize(z: Size): (s: Str) {
    match z case Unset => [] case Number(n) => Numeral(n, 10, false) case Star => ['*']
  }

  function SpellMod(m: Modifier): (s: Str) {
    match m
    case NoMod => "" case Char => "hh" case Short => "h" case Long => "l" case LongLong => "ll"
    case IntMax => "j" case PtrDiff => "t" case SizeT => "z"
  }

  /** The part of a directive behind its flags, and so on. */
  function SpellConv(i: Item): (s: Str)
    requires i.Directive?
  {
    SpellMod(i.mod) + [i.conv]
  }

  function SpellDot(i: Item): (s: Str)
    requires i.Directive?
  {
    (if i.dot then ['.'] + SpellSize(i.precision) else []) + SpellConv(i)
  }

  function SpellWidth(i: Item): (s: Str)
    requires i.Directive?
  {
    SpellSize(i.width) + SpellDot(i)
  }

  function Spell(i: Item): (s: Str) {
    if i.Plain? then [i.c] else ['%'] + (i.flags + SpellWidth(i))
  }

  /** The format string of a sequence of items. */
  function SpellAll(items: seq<Item>): (s: Str) {
    if items == [] then [] else Spell(items[0]) + SpellAll(items[1..])
  }

  function AddFlags(fl: Flags, fs: Str): (r: Flags)
    requires AllFlags(fs)
    decreases |fs|
  {
    if fs == [] then fl else AddFlags(AddFlag(fl, fs[0]), fs[1..])
  }

  /**
   * What items print: plain characters as they are, and for a directive the field of its conversion,
   * where `*` takes the next argument, a negative width means left-justified, and a negative
   * precision means none.
   */
  function Meaning(items: seq<Item>, args: seq<Arg>): (r: Printed)
    requires AllSane(items)
  {
    if items == [] then NOTHING
    else
      var i := items[0];
      if i.Plain? then Before([i.c], Meaning(items[1..], args))
      else
        var fl := AddFlags(NO_FLAGS, i.flags);
        var w := if i.width.Star? then Signed(Next(args).word, WORD) else if i.width.Number? then i.width.n else 0;
        var args1 := if i.width.Star? then Others(args) else args;
        var p := PrecisionIn(i, args1);
        var args2 := if i.precision.Star? then Others(args1) else args1;
        Before(FieldOf(i.conv, Next(args2), if w < 0 then fl.(minus := true) else fl, if w < 0 then -w else w, p,
                       i.mod),
               Meaning(items[1..], if TakesArg(i.conv) then Others(args2) else args2))
  }

  // ----- what the pieces of a meaning are -----

  /** Each flag character sets its flag, in any order and any number. */
  lemma {:induction false} FlagChars(fl: Flags, fs: Str)
    requires AllFlags(fs)
    ensures var r := AddFlags(fl, fs);
            && (r.minus <==> fl.minus || '-' in fs) && (r.plus <==> fl.plus || '+' in fs)
            && (r.space <==> fl.space || ' ' in fs) && (r.num <==> fl.num || '#' in fs)
            && (r.zero <==> fl.zero || '0' in fs) && (r.quote <==> fl.quote || '\'' in fs)
    decreases |fs|
  {
    if fs != [] {
      hide AddFlag;
      FlagSet(fl, fs[0]);
      FrontOrRest(fs, '-');
      FrontOrRest(fs, '+');
      FrontOrRest(fs, ' ');
      FrontOrRest(fs, '#');
      FrontOrRest(fs, '0');
      FrontOrRest(fs, '\'');
      FlagChars(AddFlag(fl, fs[0]), fs[1..]);
    }
  }

  lemma FlagSet(fl: Flags, c: char)
    requires IsFlag(c)
    ensures var r := AddFlag(fl, c);
            && (r.minus <==> fl.minus || c == '-') && (r.plus <==> fl.plus || c == '+')
            && (r.space <==> fl.space || c == ' ') && (r.num <==> fl.num || c == '#')
            && (r.zero <==> fl.zero || c == '0') && (r.quote <==> fl.quote || c == '\'')
  {
  }

  lemma FrontOrRest(fs: Str, c: char)
    requires fs != []
    ensures c in fs <==> c == fs[0] || c in fs[1..]
  {
    assert fs == [fs[0]] + fs[1..];
  }

  /** Arguments are taken one after the other; missing ones read as 0. */
  lemma ArgsInOrder(args: seq<Arg>, c: char)
    ensures args != [] ==> [Next(args)] + Others(args) == args
    ensures args == [] ==> Next(args).word == 0 && Others(args) == []
    ensures TakesArg(c) <==> c in "diXxoucspn"
    ensures IsFlag(c) <==> c in "-+ #0'"
  {
    var fs := "-+ #0'";
    assert |fs| == 6 && fs[0] == '-' && fs[1] == '+' && fs[2] == ' ' && fs[3] == '#' && fs[4] == '0' && fs[5] == '\'';
    var s := "diXxoucspn";
    assert |s| == 10 && s[0] == 'd' && s[1] == 'i' && s[2] == 'X' && s[3] == 'x' && s[4] == 'o' && s[5] == 'u';
    assert s[6] == 'c' && s[7] == 's' && s[8] == 'p' && s[9] == 'n';
  }

  /** A word as a number of the given range, negative in its upper half. */
  lemma SignedMeans(w: nat, range: nat)
    requires range == 0x100 || range == 0x1_0000 || range == 0x1_0000_0000
    ensures var v := Signed(w, range); 0 <= 2 * v + range < 2 * range && (w - v) % range == 0
  {
    WholeRange(w, range);
  }

  /** What a remainder leaves is a multiple. */
  lemma WholeRange(w: nat, range: nat)
    requires range == 0x100 || range == 0x1_0000 || range == 0x1_0000_0000
    ensures (w - w % range) % range == 0 && (w - (w % range - range)) % range == 0
  {
  }

  /** What a number conversion prints: which number, in which base, and in which case. */
  lemma NumberField(c: char, a: Arg, fl: Flags, width: nat, precision: int, m: Modifier)
    returns (v: int, b: nat, unsigned: bool, caps: bool)
    requires c in ['d', 'i', 'o', 'u', 'x', 'X'] && -1 <= precision
    ensures Base(b) && FieldOf(c, a, fl, width, precision, m) == IntField(v, b, width, precision, fl, unsigned, caps)
    ensures unsigned <==> c != 'd' && c != 'i'
    ensures b == if c == 'x' || c == 'X' then 16 else if c == 'o' then 8 else 10
    ensures caps <==> c == 'X'
    ensures var range := if m.Char? then 0x100 else if m.Short? then 0x1_0000 else 0x1_0000_0000;
            (a.word - v) % range == 0 && if unsigned then 0 <= v < range else 0 <= 2 * v + range < 2 * range
  {
    hide IntField, Signed;
    var range := if m.Char? then 0x100 else if m.Short? then 0x1_0000 else 0x1_0000_0000;
    SignedMeans(a.word, range);
    if c == 'd' || c == 'i' {
      v, b, unsigned, caps := Signed(a.word, range), 10, false, false;
    } else {
      v, b, unsigned, caps := a.word % range, BaseOf(c), true, c == 'X';
      WholeRange(a.word, range);
    }
  }

  /** What a string or a null pointer prints: the text, cut to the precision, between spaces. */
  lemma TextField(text: Str, width: nat, precision: int, left: bool) returns (before: nat, shown: Str, after: nat)
    requires -1 <= precision
    ensures Padded(Clipped(text, precision), width, left) == Fill(' ', before) + shown + Fill(' ', after)
    ensures shown <= text && (shown == text || |shown| == precision) && (precision >= 0 ==> |shown| <= precision)
    ensures before + |shown| + after >= width && (before + after > 0 ==> before + |shown| + after == width)
    ensures (before > 0 ==> !left) && (after > 0 ==> left)
  {
    shown := Clipped(text, precision);
    var pad := if width > |shown| then width - |shown| else 0;
    before, after := if left then 0 else pad, if left then pad else 0;
    assert Fill(' ', 0) == [] && Fill(' ', width - |shown|) == Fill(' ', pad);
  }

  /** The remaining conversions, and the text of a string argument. */
  lemma OtherFields(c: char, a: Arg, fl: Flags, width: nat, precision: int, m: Modifier)
    requires -1 <= precision
    ensures var f := FieldOf(c, a, fl, width, precision, m);
            && (c == 'c' ==> |f| == 1 && f[0] as int == a.word % 0x100)
            && (c == '%' ==> f == "%") && (c == 'n' ==> f == "")
            && (c == 'p' && a.word % 0x1_0000_0000 != 0 ==>
                  f == FieldOf('x', a, fl.(num := true), width, precision, NoMod))
            && (c == 'p' && a.word % 0x1_0000_0000 == 0 ==> f == Padded(Clipped("(nil)", -1), width, fl.minus))
            && (c == 's' ==> f == Padded(Clipped(TextOf(a), precision), width, fl.minus))
    ensures if a.word % 0x1_0000_0000 == 0 then TextOf(a) == "(null)"
            else TextOf(a) <= a.text && (TextOf(a) == a.text || a.text[|TextOf(a)|] == '\0')
  {
    hide IntField, Padded, Signed;
    UntilNulWhole(a.text);
  }

  lemma {:induction false} UntilNulWhole(s: Str)
    ensures UntilNul(s) == s || s[|UntilNul(s)|] == NUL
    decreases |s|
  {
    if s != [] && s[0] != NUL {
      UntilNulWhole(s[1..]);
    }
  }

  // ----- the machine reads every well-formed format as what it means -----

  /** A flag run is read whole. */
  lemma {:induction false} FlagsRun(fs: Str, rest: Str, args: seq<Arg>, fl: Flags)
    requires AllFlags(fs) && rest != [] && !IsFlag(rest[0])
    ensures InFlags(fs + rest, args, fl) == InWidth(rest, args, AddFlags(fl, fs), 0)
    decreases |fs|
  {
    if fs == [] {
      assert fs + rest == rest;
    } else {
      assert (fs + rest)[1..] == fs[1..] + rest;
      FlagsRun(fs[1..], rest, args, AddFlag(fl, fs[0]));
    }
  }

  /** The number read when the digits `s` follow those of `n`. */
  function Read(n: nat, s: Str): (r: nat)
  {
    if s == [] then n else 10 * Read(n, s[..|s| - 1]) + DigitValue(s[|s| - 1])
  }

  predicate AllDigits(s: Str) { forall k :: 0 <= k < |s| ==> IsDigit(s[k]) }

  lemma {:induction false} ReadFront(n: nat, s: Str)
    requires s != []
    ensures Read(n, s) == Read(10 * n + DigitValue(s[0]), s[1..])
    decreases |s|
  {
    if |s| > 1 {
      var t := s[..|s| - 1];
      ReadFront(n, t);
      assert s[1..][..|s| - 2] == t[1..];
    }
  }

  lemma {:induction false} ReadGrows(n: nat, s: Str)
    ensures n <= Read(n, s)
    decreases |s|
  {
    if s != [] {
      ReadGrows(n, s[..|s| - 1]);
    }
  }

  lemma {:induction false} ReadDenotes(s: Str)
    ensures Read(0, s) == Denotes(s, 10)
    decreases |s|
  {
    if s != [] {
      ReadDenotes(s[..|s| - 1]);
    }
  }

  lemma {:induction false} NumeralDecimal(v: nat)
    ensures AllDigits(Numeral(v, 10, false))
    ensures 1 <= v ==> Numeral(v, 10, false)[0] != '0'
    decreases v
  {
    if v >= 10 {
      NumeralDecimal(Quot(v, 10));
    }
  }

  /** A digit run that denotes an int is read whole, as a width and as a precision. */
  lemma {:induction false} DigitsRun(s: Str, rest: Str, args: seq<Arg>, fl: Flags, width: nat, n: nat)
    requires AllDigits(s) && rest != [] && !IsDigit(rest[0]) && Read(n, s) <= INT_MAX
    ensures InWidth(s + rest, args, fl, n) == InWidth(rest, args, fl, Read(n, s))
    ensures InPrecision(s + rest, args, fl, width, n) == InPrecision(rest, args, fl, width, Read(n, s))
    decreases |s|
  {
    if s == [] {
      assert s + rest == rest;
    } else {
      assert (s + rest)[1..] == s[1..] + rest && (s + rest)[0] == s[0];
      var d := DigitValue(s[0]);
      ReadFront(n, s);
      ReadGrows(10 * n + d, s[1..]);
      OverflowsExactly(n, d);
      DigitsRun(s[1..], rest, args, fl, width, 10 * n + d);
    }
  }

  /** Any other number overflows. */
  lemma {:induction false} DigitsOverflow(s: Str, rest: Str, args: seq<Arg>, fl: Flags, width: nat, n: nat)
    requires AllDigits(s) && Read(n, s) > INT_MAX && n <= INT_MAX
    ensures InWidth(s + rest, args, fl, n) == Printed([], true)
    ensures InPrecision(s + rest, args, fl, width, n) == Printed([], true)
    decreases |s|
  {
    if s != [] {
      assert (s + rest)[1..] == s[1..] + rest && (s + rest)[0] == s[0];
      var d := DigitValue(s[0]);
      ReadFront(n, s);
      OverflowsExactly(n, d);
      if !Overflows(n, d) {
        DigitsOverflow(s[1..], rest, args, fl, width, 10 * n + d);
      }
    }
  }

  lemma NumberRun(v: nat, rest: Str, args: seq<Arg>, fl: Flags, width: nat)
    requires v <= INT_MAX && rest != [] && !IsDigit(rest[0])
    ensures InWidth(Numeral(v, 10, false) + rest, args, fl, 0) == InWidth(rest, args, fl, v)
    ensures InPrecision(Numeral(v, 10, false) + rest, args, fl, width, 0) == InPrecision(rest, args, fl, width, v)
  {
    hide Numeral, InWidth, InPrecision, Denotes;
    NumeralDecimal(v);
    NumeralDenotes(v, 10, false);
    ReadDenotes(Numeral(v, 10, false));
    DigitsRun(Numeral(v, 10, false), rest, args, fl, width, 0);
  }

  lemma ConvRun(i: Item, rest: Str, args: seq<Arg>, fl: Flags, width: nat, precision: int)
    requires i.Directive? && Sane(i) && -1 <= precision
    ensures InMod(SpellConv(i) + rest, args, fl, width, precision) ==
            InConv([i.conv] + rest, args, fl, width, precision, i.mod)
  {
    hide InConv;
    var f := SpellConv(i) + rest;
    assert f == SpellMod(i.mod) + ([i.conv] + rest);
    assert ModAt(f) == i.mod;
    assert f[ModLength(i.mod)..] == [i.conv] + rest;
  }

  /** The precision of a directive and how many arguments it takes. */
  function PrecisionIn(i: Item, args: seq<Arg>): (p: int)
    requires i.Directive?
    ensures -1 <= p
  {
    if !i.dot then -1 else if i.precision.Star? then Max(-1, Signed(Next(args).word, WORD))
    else if i.precision.Number? then i.precision.n else 0
  }

  lemma DotRun(i: Item, rest: Str, args: seq<Arg>, fl: Flags, width: nat)
    requires i.Directive? && Sane(i)
    ensures InDot(SpellDot(i) + rest, args, fl, width) ==
            InConv([i.conv] + rest, if i.precision.Star? then Others(args) else args, fl, width, PrecisionIn(i, args),
                   i.mod)
  {
    hide InConv, InMod, Numeral, Signed;
    var tail := SpellConv(i) + rest;
    ConvStart(i);
    ConvRun(i, rest, if i.precision.Star? then Others(args) else args, fl, width, PrecisionIn(i, args));
    var f := SpellDot(i) + rest;
    if i.dot {
      assert f[0] == '.' && f[1..] == SpellSize(i.precision) + tail;
      match i.precision
      case Number(n) => NumberRun(n, tail, args, fl, width);
      case Star => assert (['*'] + tail)[1..] == tail;
      case Unset => assert [] + tail == tail;
    } else {
      assert f == tail;
    }
  }

  /** The end of a directive does not look like an earlier part of one. */
  lemma ConvStart(i: Item)
    requires i.Directive? && Sane(i)
    ensures SpellConv(i) != []
    ensures var c := SpellConv(i)[0];
            !IsDigit(c) && c != '*' && c != '.' && !IsFlag(c)
  {
  }

  lemma DotStart(i: Item)
    requires i.Directive? && Sane(i)
    ensures SpellDot(i) != []
    ensures var c := SpellDot(i)[0];
            !IsDigit(c) && c != '*' && !IsFlag(c)
  {
    hide SpellConv;
    ConvStart(i);
  }

  lemma WidthRun(i: Item, rest: Str, args: seq<Arg>, fl: Flags)
    requires i.Directive? && Sane(i)
    ensures var w := if i.width.Star? then Signed(Next(args).word, WORD) else if i.width.Number? then i.width.n else 0;
            InWidth(SpellWidth(i) + rest, args, fl, 0) ==
            InDot(SpellDot(i) + rest, if i.width.Star? then Others(args) else args,
                  if w < 0 then fl.(minus := true) else fl, if w < 0 then -w else w)
  {
    hide InDot, Numeral, Signed, SpellDot;
    DotStart(i);
    var tail := SpellDot(i) + rest;
    assert SpellWidth(i) + rest == SpellSize(i.width) + tail;
    match i.width
    case Number(n) => NumberRun(n, tail, args, fl, 0);
    case Star => assert (['*'] + tail)[1..] == tail;
    case Unset => assert [] + tail == tail;
  }

  lemma WidthStart(i: Item)
    requires i.Directive? && Sane(i)
    ensures SpellWidth(i) != [] && !IsFlag(SpellWidth(i)[0])
  {
    hide SpellDot, Numeral;
    DotStart(i);
    if i.width.Number? {
      NumeralDecimal(i.width.n);
    }
  }

  /** On every well-formed format the machine prints what the items mean, for all arguments. */
  lemma {:induction false} MachineMeaning(items: seq<Item>, args: seq<Arg>)
    requires AllSane(items)
    ensures Text(SpellAll(items), args) == Meaning(items, args)
    decreases |items|
  {
    hide FieldOf, InWidth, InDot, InPrecision, InMod, SpellWidth, SpellDot, Signed;
    if items != [] {
      var i, rest := items[0], SpellAll(items[1..]);
      assert Sane(i) && AllSane(items[1..]);
      var f := SpellAll(items);
      if i.Plain? {
        assert f[1..] == rest;
        MachineMeaning(items[1..], args);
      } else {
        assert f == ['%'] + (i.flags + (SpellWidth(i) + rest));
        assert f[1..] == i.flags + (SpellWidth(i) + rest);
        WidthStart(i);
        FlagsRun(i.flags, SpellWidth(i) + rest, args, NO_FLAGS);
        var fl := AddFlags(NO_FLAGS, i.flags);
        WidthRun(i, rest, args, fl);
        var w := if i.width.Star? then Signed(Next(args).word, WORD) else if i.width.Number? then i.width.n else 0;
        var args1 := if i.width.Star? then Others(args) else args;
        DotRun(i, rest, args1, if w < 0 then fl.(minus := true) else fl, if w < 0 then -w else w);
        var args2 := if i.precision.Star? then Others(args1) else args1;
        assert ([i.conv] + rest)[1..] == rest;
        MachineMeaning(items[1..], if TakesArg(i.conv) then Others(args2) else args2);
      }
    }
  }
}
