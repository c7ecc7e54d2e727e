/** `vsnprintf` and the functions it prints with, against what `Format` and `Directives` say. */
module Printf {
  import opened Format
  import opened Directives

  const MAX_CONVERT_LENGTH := 43

  /** The character at position `i` of a NUL-terminated string; nothing lies behind the terminator. */
  function CharAt(s: Str, i: nat): (c: char)
    requires i <= |s|
  {
    if i < |s| then s[i] else NUL
  }

  lemma {:induction false} UntilNulEnds(s: Str, k: nat)
    requires k <= |UntilNul(s)|
    ensures k < |UntilNul(s)| <==> CharAt(s, k) != NUL
    ensures k < |UntilNul(s)| ==> UntilNul(s)[k] == s[k]
    decreases |s|
  {
    if k > 0 {
      UntilNulEnds(s[1..], k - 1);
    }
  }

  /** The buffer, its size and the length of the output so far: `str`, `size` and `len`. */
  class Sink {
    const str: array?<char>
    const size: nat
    var len: nat

    /** Everything printed, whether it fits or not. */
    ghost var out: Str

    /** What the buffer held at the start. */
    ghost const before: Str

    ghost predicate Valid()
      reads `len, `out, str
    {
      && len == |out|
      && (str == null ==> size == 0)
      && (str != null ==>
            && size <= str.Length == |before|
            && forall i :: 0 <= i < str.Length ==> str[i] == if i < len && i + 1 < size then out[i] else before[i])
    }

    constructor (str: array?<char>, size: nat)
      requires str != null ==> size <= str.Length
      ensures Valid() && out == [] && this.str == str && before == (if str == null then [] else str[..])
      ensures this.size == if str == null then 0 else size
    {
      this.str := str;
      this.size := if str == null then 0 else size;
      len, out := 0, [];
      before := if str == null then [] else str[..];
    }

    /** `OUTCHAR`. */
    method Out(ch: char)
      requires Valid()
      modifies `len, `out, str
      ensures Valid() && out == old(out) + [ch]
    {
      if len + 1 < size {
        str[len] := ch;
      }
      len := len + 1;
      out := out + [ch];
    }

    /** The padding loops. */
    method Repeat(ch: char, n: int)
      requires Valid()
      modifies `len, `out, str
      ensures Valid() && out == old(out) + Fill(ch, n)
    {
      var left := n;
      while left > 0
        invariant Valid() && left <= n && (0 <= left || left == n)
        invariant out == old(out) + Fill(ch, n - left)
      {
        Out(ch);
        left := left - 1;
      }
    }

    /** The end of `vsnprintf`: terminate what is in the buffer. */
    method Finish()
      requires Valid()
      modifies str
      ensures len == |out| && (size == 0 && str != null ==> str[..] == before)
      ensures size > 0 ==>
                var n := Min(len, size - 1);
                str[..] == out[..n] + [NUL] + before[n + 1..]
    {
      if len < size {
        str[len] := NUL;
      } else if size > 0 {
        str[size - 1] := NUL;
      }
    }

    /** `fmtstr`. */
    method FmtStr(value: Str, width: int, precision: int, left: bool)
      requires Valid() && -1 <= precision
      modifies `len, `out, str
      ensures Valid() && out == old(out) + Padded(Clipped(UntilNul(value), precision), width, left)
    {
      hide Sink.Valid, Fill, Clipped, UntilNul, Padded;
      var strln := Measure(value, precision);
      PaddedPieces(out, Clipped(UntilNul(value), precision), width, left);
      var padlen := width - strln;
      if padlen < 0 {
        padlen := 0;
      }
      if left {
        padlen := -padlen;
      }
      Repeat(' ', padlen);
      Copy(value, precision);
      Repeat(' ', -padlen);
    }

    /** `fmtstr`: the length of the part to print; nothing is read past a precision. */
    method Measure(value: Str, precision: int) returns (strln: nat)
      requires -1 <= precision
      ensures strln == |Clipped(UntilNul(value), precision)|
    {
      strln := 0;
      UntilNulEnds(value, 0);
      while CharAt(value, strln) != NUL && (precision == -1 || strln < precision)
        invariant strln <= |UntilNul(value)| && (precision == -1 || strln <= precision)
        invariant strln < |UntilNul(value)| <==> CharAt(value, strln) != NUL
        decreases |value| - strln
      {
        strln := strln + 1;
        UntilNulEnds(value, strln);
      }
    }

    /** `fmtstr`: print the string. */
    method Copy(value: Str, precision: int)
      requires Valid() && -1 <= precision
      modifies `len, `out, str
      ensures Valid() && out == old(out) + Clipped(UntilNul(value), precision)
    {
      hide Sink.Valid;
      var k, left := 0, precision;
      UntilNulEnds(value, 0);
      while CharAt(value, k) != NUL && (precision == -1 || left > 0)
        invariant Valid() && k <= |UntilNul(value)| && (precision != -1 ==> 0 <= left == precision - k)
        invariant k < |UntilNul(value)| <==> CharAt(value, k) != NUL
        invariant out == old(out) + UntilNul(value)[..k]
        decreases |value| - k
      {
        UntilNulEnds(value, k);
        Out(CharAt(value, k));
        k, left := k + 1, left - 1;
        UntilNulEnds(value, k);
      }
    }

    /** `fmtint`. */
    method FmtInt(value: int, base: nat, width: int, precision: int, fl: Flags, unsigned: bool, caps: bool)
      requires Valid() && Base(base) && -1 <= precision && -0x8000_0000 <= value < WORD
      modifies `len, `out, str
      ensures Valid() && out == old(out) + IntField(value, base, width, precision, fl, unsigned, caps)
    {
      hide Sink.Valid, Numeral, DigitsField, SignOf, PrefixOf, Magnitude;
      var uvalue := Magnitude(value, unsigned);
      UnsignedFits(value, unsigned);
      var lead := SignOf(value, unsigned, fl) + PrefixOf(uvalue, base, caps, fl);
      var iconvert := new char[MAX_CONVERT_LENGTH];
      var pos := Convert(uvalue, iconvert, base, caps);
      FmtDigits(uvalue, lead, iconvert, pos, base, width, precision, fl, caps);
    }

    /** `fmtint`: zeros and spaces, then all of the field. */
    method FmtDigits(uvalue: nat, lead: Str, iconvert: array<char>, pos: nat,
                     base: nat, width: int, precision: int, fl: Flags, ghost caps: bool)
      requires Valid() && Base(base) && -1 <= precision && iconvert != str
      requires pos == |Numeral(uvalue, base, caps)| <= iconvert.Length
      requires forall k :: 0 <= k < pos ==> iconvert[k] == Numeral(uvalue, base, caps)[pos - 1 - k]
      modifies `len, `out, str
      ensures Valid() && out == old(out) + DigitsField(uvalue, lead, base, width, precision, fl, caps)
    {
      hide Sink.Valid, Fill, Numeral, Grouped, NumSep, Framed, Max;
      var p := precision;
      if fl.num && uvalue != 0 && base == 8 && precision <= pos {
        p := pos + 1;
      }
      var separators := if fl.quote then NumSep(pos) else 0;
      var zpadlen := Max(0, p - pos - separators);
      var spadlen := Max(0, width - separators - Max(p, pos) - |lead|);
      MaxNat(p - pos - separators);
      MaxNat(width - separators - Max(p, pos) - |lead|);
      ghost var digits := Numeral(uvalue, base, caps);
      FramedPieces(out, lead, zpadlen, if fl.quote then Grouped(digits) else digits, spadlen,
                   fl.minus, fl.zero && precision == -1);
      if fl.minus {
        spadlen := -spadlen;
      } else if fl.zero && precision == -1 {
        zpadlen := zpadlen + spadlen;
        spadlen := 0;
      }
      EmitField(lead, zpadlen, spadlen, iconvert, pos, separators, digits, fl.quote);
    }

    /** `fmtint`: everything it prints; spaces go to the right when `spadlen` is negative. */
    method EmitField(lead: Str, zpadlen: nat, spadlen: int, iconvert: array<char>, pos: nat, separators: nat,
                     ghost digits: Str, ghost quote: bool)
      requires Valid() && iconvert != str && pos == |digits| <= iconvert.Length
      requires forall k :: 0 <= k < pos ==> iconvert[k] == digits[pos - 1 - k]
      requires separators == if quote then NumSep(pos) else 0
      modifies `len, `out, str
      ensures Valid()
      ensures out == old(out) + Fill(' ', spadlen) + lead + Fill('0', zpadlen) +
                     (if quote then Grouped(digits) else digits) + Fill(' ', -spadlen)
    {
      hide Sink.Valid, Fill, Grouped, NumSep;
      Repeat(' ', spadlen);
      Emit(lead);
      Repeat('0', zpadlen);
      EmitDigits(iconvert, pos, separators, digits, quote);
      Repeat(' ', -spadlen);
    }

    /** `fmtint`: the sign and the prefix, character by character. */
    method Emit(s: Str)
      requires Valid()
      modifies `len, `out, str
      ensures Valid() && out == old(out) + s
    {
      hide Sink.Valid;
      for k := 0 to |s|
        invariant Valid() && out == old(out) + s[..k]
      {
        Out(s[k]);
      }
    }

    /** `fmtint`: the digits, last one first in the buffer, with separators between groups. */
    method EmitDigits(buf: array<char>, count: nat, separators: nat, ghost digits: Str, ghost quote: bool)
      requires Valid() && buf != str && count == |digits| <= buf.Length
      requires forall k :: 0 <= k < count ==> buf[k] == digits[count - 1 - k]
      requires separators == if quote then NumSep(count) else 0
      modifies `len, `out, str
      ensures Valid() && out == old(out) + if quote then Grouped(digits) else digits
    {
      hide Sink.Valid, Shown, NumSep;
      var pos := count;
      ghost var start := out;
      ShownAll(digits, quote);
      while pos > 0
        invariant Valid() && 0 <= pos <= count
        invariant forall k :: 0 <= k < count ==> buf[k] == digits[count - 1 - k]
        invariant out + Shown(digits, count - pos, quote) == start + Shown(digits, 0, quote)
      {
        pos := pos - 1;
        ShownStep(out, digits, count - pos - 1, quote, separators);
        Out(buf[pos]);
        if separators > 0 && pos > 0 && pos % 3 == 0 {
          Out(',');
        }
      }
    }
  }

  /** What remains to be shown of a numeral from digit `k` on. */
  ghost function Shown(digits: Str, k: nat, quote: bool): (s: Str)
    requires k <= |digits|
  {
    if quote then Grouped(digits[k..]) else digits[k..]
  }

  lemma ShownAll(digits: Str, quote: bool)
    ensures Shown(digits, 0, quote) == if quote then Grouped(digits) else digits
    ensures Shown(digits, |digits|, quote) == []
  {
    assert digits[0..] == digits;
  }

  lemma ShownStep(o: Str, digits: Str, k: nat, quote: bool, separators: nat)
    requires k < |digits| && separators == if quote then NumSep(|digits|) else 0
    ensures var left := |digits| - k - 1;
            o + Shown(digits, k, quote) ==
            (if separators > 0 && left > 0 && left % 3 == 0 then o + [digits[k]] + [','] else o + [digits[k]]) +
            Shown(digits, k + 1, quote)
  {
    hide Shown, NumSep;
    var left := |digits| - k - 1;
    ShownHead(digits, k, quote);
    NumSepPositive(|digits|, left);
    Regroup(o, digits[k], if quote && left > 0 && left % 3 == 0 then [','] else [], Shown(digits, k + 1, quote));
  }

  lemma NumSepPositive(digits: nat, left: nat)
    requires left < digits
    ensures left > 0 && left % 3 == 0 ==> NumSep(digits) > 0
  {
  }

  lemma ShownHead(digits: Str, k: nat, quote: bool)
    requires k < |digits|
    ensures var left := |digits| - k - 1;
            Shown(digits, k, quote) ==
            [digits[k]] + (if quote && left > 0 && left % 3 == 0 then [','] else []) + Shown(digits, k + 1, quote)
  {
    var t := digits[k..];
    assert t[0] == digits[k] && t[1..] == digits[k + 1..];
  }

  lemma Regroup(o: Str, d: char, g: Str, t: Str)
    ensures o + ([d] + g + t) == (if g == [] then o + [d] else o + [d] + g) + t
  {
  }

  lemma MaxNat(x: int)
    ensures Max(0, x) >= 0
  {
  }

  lemma UnsignedFits(v: int, unsigned: bool)
    requires -0x8000_0000 <= v < WORD
    ensures Magnitude(v, unsigned) < WORD
  {
  }

  lemma PaddedPieces(o: Str, s: Str, width: int, left: bool)
    ensures var pad := if width - |s| < 0 then 0 else width - |s|;
            var n := if left then -pad else pad;
            o + Fill(' ', n) + s + Fill(' ', -n) == o + Padded(s, width, left)
  {
    var pad := if width - |s| < 0 then 0 else width - |s|;
    assert Fill(' ', -pad) == [] && Fill(' ', width - |s|) == Fill(' ', pad);
  }

  lemma FramedPieces(o: Str, lead: Str, zeros: nat, shown: Str, spaces: nat, left: bool, zeroed: bool)
    ensures var n := if left then 0 - spaces else if zeroed then 0 else spaces;
            var z := if !left && zeroed then zeros + spaces else zeros;
            o + Fill(' ', n) + lead + Fill('0', z) + shown + Fill(' ', -n) ==
            o + Framed(lead, zeros, shown, spaces, left, zeroed)
  {
    var n := if left then 0 - spaces else if zeroed then 0 else spaces;
    assert n <= 0 ==> Fill(' ', n) == [];
    assert -n <= 0 ==> Fill(' ', -n) == [];
  }

  /** `convert`: the digits of a value in reverse order; they always fit the buffer. */
  method Convert(value: nat, buf: array<char>, base: nat, caps: bool) returns (pos: nat)
    requires Base(base) && value < WORD && buf.Length == MAX_CONVERT_LENGTH
    modifies buf
    ensures pos == |Numeral(value, base, caps)| <= 11
    ensures forall k :: 0 <= k < pos ==> buf[k] == Numeral(value, base, caps)[pos - 1 - k]
  {
    hide Numeral;
    WordFits(value, base, caps);
    ghost var all := Numeral(value, base, caps);
    NumeralStep(value, base, caps);
    buf[0] := Digit(Rem(value, base), caps);
    pos := 1;
    var v := Quot(value, base);
    while v != 0 && pos < buf.Length
      invariant 1 <= pos <= |all|
      invariant if v == 0 then pos == |all| else all[..|all| - pos] == Numeral(v, base, caps)
      invariant forall k :: 0 <= k < pos ==> buf[k] == all[|all| - 1 - k]
      decreases v
    {
      NumeralStep(v, base, caps);
      assert all[|all| - 1 - pos] == Numeral(v, base, caps)[|all| - 1 - pos];
      buf[pos] := Digit(Rem(v, base), caps);
      pos := pos + 1;
      v := Quot(v, base);
    }
  }

  /** The last digit of a numeral and what stands before it. */
  lemma NumeralStep(v: nat, b: nat, caps: bool)
    requires Base(b)
    ensures var s := Numeral(v, b, caps);
            && s[|s| - 1] == Digit(Rem(v, b), caps)
            && if Quot(v, b) == 0 then |s| == 1 else s[..|s| - 1] == Numeral(Quot(v, b), b, caps)
  {
    hide Digit;
    if v >= b {
      assert Numeral(v, b, caps)[..|Numeral(v, b, caps)| - 1] == Numeral(Quot(v, b), b, caps);
    }
  }

  /** The states of the format machine. */
  datatype State = Default | InFlag | Width | Dot | Precision | Mod | Conv {
    function Rank(): nat {
      match this
      case Default => 0 case InFlag => 1 case Width => 2 case Dot => 3 case Precision => 4 case Mod => 5 case Conv => 6
    }
  }

  /** What the machine collects for a directive. */
  datatype Collected = Collected(state: State, fl: Flags, width: nat, precision: int, mod: Modifier)

  const START := Collected(Default, NO_FLAGS, 0, -1, NoMod)

  /** A record is what its state allows: later parts are still unset. */
  predicate InOrder(c: Collected) {
    && -1 <= c.precision
    && (c.state.Rank() <= 3 ==> c.precision == -1)
    && (c.state.Rank() <= 1 ==> c.width == 0)
    && (c.state.Rank() <= 5 ==> c.mod == NoMod)
    && (c.state.Default? ==> c.fl == NO_FLAGS)
  }

  /** What is yet to be printed when the machine stands before `f` in a state. */
  ghost function Rest(c: Collected, f: Str, args: seq<Arg>): (r: Printed)
    requires InOrder(c)
  {
    match c.state
    case Default => Text(f, args)
    case InFlag => InFlags(f, args, c.fl)
    case Width => InWidth(f, args, c.fl, c.width)
    case Dot => InDot(f, args, c.fl, c.width)
    case Precision => InPrecision(f, args, c.fl, c.width, Max(0, c.precision))
    case Mod => InMod(f, args, c.fl, c.width, c.precision)
    case Conv => InConv(f, args, c.fl, c.width, c.precision, c.mod)
  }

  /** A number being read: the next digit, or overflow. */
  method ReadDigit(n: nat, ch: char) returns (overflow: bool, r: nat)
    requires IsDigit(ch)
    ensures overflow == Overflows(n, DigitValue(ch))
    ensures !overflow ==> r == 10 * n + DigitValue(ch)
  {
    var d := DigitValue(ch);
    overflow := n > (INT_MAX - d) / 10;
    r := if overflow then n else 10 * n + d;
  }

  /** `va_arg`, as an int. */
  method IntArg(args: seq<Arg>) returns (v: int, rest: seq<Arg>)
    ensures v == Signed(Next(args).word, WORD) && rest == Others(args)
  {
    v, rest := Signed(Next(args).word, WORD), Others(args);
  }

  /** The flag, width and dot states: one turn of the machine before a precision. */
  method EarlyStep(c: Collected, f: Str, at: nat, args: seq<Arg>)
    returns (c': Collected, at': nat, args': seq<Arg>, overflow: bool)
    requires at < |f| && InOrder(c) && c.state in {InFlag, Width, Dot}
    ensures overflow ==> Rest(c, f[at..], args) == Printed([], true)
    ensures InOrder(c') && at <= at' <= |f| && (at' == at ==> !overflow && c'.state.Rank() > c.state.Rank())
    ensures !overflow ==> Rest(c, f[at..], args) == Rest(c', f[at'..], args')
  {
    hide Signed, InPrecision, InMod, Text;
    c', at', args', overflow := c, at, args, false;
    var ch := f[at];
    assert f[at..][0] == ch && f[at..][1..] == f[at + 1..];
    if c.state == InFlag {
      if IsFlag(ch) {
        c', at' := c.(fl := AddFlag(c.fl, ch)), at + 1;
      } else {
        c' := c.(state := Width);
      }
    } else if c.state == Width {
      if IsDigit(ch) {
        var w;
        overflow, w := ReadDigit(c.width, ch);
        c', at' := c.(width := w), at + 1;
      } else if ch == '*' {
        var w;
        w, args' := IntArg(args);
        c' := c.(state := Dot, fl := if w < 0 then c.fl.(minus := true) else c.fl, width := if w < 0 then -w else w);
        at' := at + 1;
      } else {
        c' := c.(state := Dot);
      }
    } else {
      if ch == '.' {
        c', at' := c.(state := Precision), at + 1;
      } else {
        c' := c.(state := Mod);
      }
    }
  }

  /** The precision and length modifier states. */
  method LateStep(c: Collected, f: Str, at: nat, args: seq<Arg>)
    returns (c': Collected, at': nat, args': seq<Arg>, overflow: bool)
    requires at < |f| && InOrder(c) && c.state in {Precision, Mod}
    ensures overflow ==> Rest(c, f[at..], args) == Printed([], true)
    ensures InOrder(c') && at <= at' <= |f| && (at' == at ==> !overflow && c'.state.Rank() > c.state.Rank())
    ensures !overflow ==> Rest(c, f[at..], args) == Rest(c', f[at'..], args')
  {
    hide Signed, Text, InConv;
    c', at', args', overflow := c, at, args, false;
    var ch := f[at];
    assert f[at..][0] == ch && f[at..][1..] == f[at + 1..];
    if c.state == Mod {
      var m;
      m, at' := ReadMod(f, at);
      c' := c.(state := Conv, mod := m);
      return;
    }
    var precision := if c.precision == -1 then 0 else c.precision;
    if IsDigit(ch) {
      var p;
      overflow, p := ReadDigit(precision, ch);
      c', at' := c.(precision := p), at + 1;
    } else if ch == '*' {
      var p;
      p, args' := IntArg(args);
      c', at' := c.(state := Mod, precision := if p < 0 then -1 else p), at + 1;
    } else {
      c' := c.(state := Mod, precision := precision);
    }
  }

  /** The length modifier, which may be one or two characters. */
  method ReadMod(f: Str, at: nat) returns (m: Modifier, at': nat)
    requires at < |f|
    ensures m == ModAt(f[at..]) && at' == at + ModLength(m) <= |f|
    ensures f[at'..] == f[at..][ModLength(m)..]
  {
    m, at' := NoMod, at;
    var ch := f[at];
    if ch == 'h' || ch == 'l' {
      at' := at + 1;
      if CharAt(f, at') == ch {
        at' := at' + 1;
        m := if ch == 'h' then Char else LongLong;
      } else {
        m := if ch == 'h' then Short else Long;
      }
    } else if ch == 'j' || ch == 't' || ch == 'z' {
      at' := at + 1;
      m := if ch == 'j' then IntMax else if ch == 't' then PtrDiff else SizeT;
    }
    assert f[at..][ModLength(ModAt(f[at..]))..] == f[at + ModLength(ModAt(f[at..]))..];
  }

  /** The conversion state: print the field. The store of `n` is left out. */
  method PrintField(sink: Sink, ch: char, a: Arg, c: Collected)
    requires sink.Valid() && -1 <= c.precision
    modifies sink`len, sink`out, sink.str
    ensures sink.Valid()
    ensures sink.out == old(sink.out) + FieldOf(ch, a, c.fl, c.width, c.precision, c.mod)
  {
    hide Sink.Valid, IntField, Padded, Clipped, UntilNul;
    if ch == 'd' || ch == 'i' {
      SignedFits(a.word, Range(c.mod));
      sink.FmtInt(Signed(a.word, Range(c.mod)), 10, c.width, c.precision, c.fl, false, false);
    } else if Unsigned(ch) {
      sink.FmtInt(a.word % Range(c.mod), BaseOf(ch), c.width, c.precision, c.fl, true, ch == 'X');
    } else if ch == 'c' {
      sink.Out((a.word % 0x100) as char);
    } else if ch == 's' {
      NoNul("(null)");
      sink.FmtStr(if a.word % WORD == 0 then "(null)" else a.text, c.width, c.precision, c.fl.minus);
    } else if ch == 'p' && a.word % WORD == 0 {
      NoNul("(nil)");
      Unclipped("(nil)");
      sink.FmtStr("(nil)", c.width, -1, c.fl.minus);
    } else if ch == 'p' {
      sink.FmtInt(a.word % WORD, 16, c.width, c.precision, c.fl.(num := true), true, false);
    } else if ch == '%' {
      sink.Out(ch);
    }
  }

  lemma SignedFits(w: nat, range: nat)
    requires range == 0x100 || range == 0x1_0000 || range == WORD
    ensures -0x8000_0000 <= Signed(w, range) < WORD
  {
  }

  lemma {:induction false} NoNul(s: Str)
    requires NUL !in s
    ensures UntilNul(s) == s
    decreases |s|
  {
    if s != [] {
      NoNul(s[1..]);
    }
  }

  lemma Unclipped(s: Str)
    ensures Clipped(s, -1) == s
  {
  }

  /** The text and conversion states: those that print. */
  method PrintingStep(sink: Sink, c: Collected, f: Str, at: nat, args: seq<Arg>)
    returns (c': Collected, args': seq<Arg>)
    requires sink.Valid() && at < |f| && InOrder(c) && c.state in {Default, Conv}
    modifies sink`len, sink`out, sink.str
    ensures sink.Valid() && InOrder(c')
    ensures Before(old(sink.out), Rest(c, f[at..], args)) == Before(sink.out, Rest(c', f[at + 1..], args'))
  {
    hide Sink.Valid, FieldOf;
    c', args' := c, args;
    var ch := f[at];
    assert f[at..][0] == ch && f[at..][1..] == f[at + 1..];
    if c.state == Conv {
      PrintField(sink, ch, Next(args), c);
      args' := if TakesArg(ch) then Others(args) else args;
      c' := START;
    } else if ch == '%' {
      c' := c.(state := InFlag);
    } else {
      sink.Out(ch);
    }
  }

  /**
   * `vsnprintf`: whatever the size, the buffer receives the start of the one output the format and
   * the arguments determine, and a terminator; nothing else in it changes, and the value returned
   * does not depend on the size.
   */
  method Vsnprintf(str: array?<char>, size: nat, format: Str, args: seq<Arg>) returns (r: int)
    requires (str != null ==> size <= str.Length) && NUL !in format
    modifies str
    ensures var p := Text(format, args);
            r == if p.overflow || |p.text| >= INT_MAX then -1 else |p.text|
    ensures str != null && size > 0 ==>
              var n := Min(|Text(format, args).text|, size - 1);
              str[..] == Text(format, args).text[..n] + [NUL] + old(str[..])[n + 1..]
    ensures str != null && size == 0 ==> str[..] == old(str[..])
  {
    hide Sink.Valid, Rest, Text, InOrder;
    var sink := new Sink(str, size);
    var at, left, overflow := 0, args, false;
    var c := START;
    StartRest(format, args);
    assert format[0..] == format;
    while at < |format| && !overflow
      invariant sink.Valid() && sink.str == str && at <= |format| && InOrder(c)
      invariant Text(format, args) ==
                Before(sink.out, if overflow then Printed([], true) else Rest(c, format[at..], left))
      decreases |format| - at, !overflow, 7 - c.state.Rank()
    {
      if c.state == Default || c.state == Conv {
        c, left := PrintingStep(sink, c, format, at, left);
        at := at + 1;
      } else if c.state == Precision || c.state == Mod {
        c, at, left, overflow := LateStep(c, format, at, left);
      } else {
        c, at, left, overflow := EarlyStep(c, format, at, left);
      }
    }
    if !overflow {
      RestAtEnd(c, format[at..], left);
    }
    AllPrinted(Text(format, args), sink.out, overflow);
    sink.Finish();
    r := if overflow || sink.len >= INT_MAX then -1 else sink.len;
  }

  lemma StartRest(f: Str, args: seq<Arg>)
    ensures InOrder(START) && Rest(START, f, args) == Text(f, args)
    ensures Before([], Text(f, args)) == Text(f, args)
  {
  }

  lemma AllPrinted(p: Printed, out: Str, overflow: bool)
    requires p == Before(out, Printed([], overflow))
    ensures p.text == out && p.overflow == overflow
  {
  }

  lemma RestAtEnd(c: Collected, f: Str, args: seq<Arg>)
    requires InOrder(c) && f == []
    ensures Rest(c, f, args) == NOTHING
  {
  }
}
