/** What `vsnprintf` prints: numerals, fields, and the format language with its directives. */
module Format {

  const INT_MAX := 0x7FFF_FFFF
  const WORD := 0x1_0000_0000

  type Str = seq<char>

  // ----- numerals -----

  predicate Base(b: nat) { b == 8 || b == 10 || b == 16 }

  function Quot(v: nat, b: nat): (q: nat)
    requires Base(b)
    ensures q <= v / 8 && (q < v || v == 0)
  {
    if b == 8 then v / 8 else if b == 10 then v / 10 else v / 16
  }

  function Rem(v: nat, b: nat): (r: nat)
    requires Base(b)
    ensures r < b && r < 16
  {
    if b == 8 then v % 8 else if b == 10 then v % 10 else v % 16
  }

  function Digit(d: nat, caps: bool): (c: char)
    requires d < 16
  {
    if caps then "0123456789ABCDEF"[d] else "0123456789abcdef"[d]
  }

  /** The number a digit stands for; anything else counts as 0. */
  function DigitValue(c: char): (d: nat)
    ensures d < 16
  {
    if '0' <= c <= '9' then c as int - '0' as int
    else if 'a' <= c <= 'f' then c as int - 'a' as int + 10
    else if 'A' <= c <= 'F' then c as int - 'A' as int + 10
    else 0
  }

  /** A digit of base `b` in the case asked for. */
  predicate DigitOf(c: char, b: nat, caps: bool) {
    ('0' <= c <= '9' || (if caps then 'A' <= c <= 'F' else 'a' <= c <= 'f')) && DigitValue(c) < b
  }

  /** A numeral: one digit or more, and nothing else. */
  predicate AllDigits(s: Str, b: nat, caps: bool) {
    s != [] && forall i :: 0 <= i < |s| ==> DigitOf(s[i], b, caps)
  }

  /** `v` in base `b`, most significant digit first. */
  function Numeral(v: nat, b: nat, caps: bool): (s: Str)
    requires Base(b)
    ensures 0 < |s|
    decreases v
  {
    if v < b then [Digit(v, caps)] else Numeral(Quot(v, b), b, caps) + [Digit(Rem(v, b), caps)]
  }

  /** The number a digit string denotes. */
  function Denotes(s: Str, b: nat): (v: nat)
    requires Base(b)
  {
    if s == [] then 0 else Times(Denotes(s[..|s| - 1], b), b) + DigitValue(s[|s| - 1])
  }

  function Times(v: nat, b: nat): nat
    requires Base(b)
  {
    if b == 8 then 8 * v else if b == 10 then 10 * v else 16 * v
  }

  /** What is printed for a value is a numeral of that base, and reads back as the value. */
  lemma {:induction false} NumeralDenotes(v: nat, b: nat, caps: bool)
    requires Base(b)
    ensures Denotes(Numeral(v, b, caps), b) == v && AllDigits(Numeral(v, b, caps), b, caps)
    decreases v
  {
    var s := Numeral(v, b, caps);
    hide Digit, DigitValue, DigitOf;
    if v < b {
      DigitRoundTrip(v, caps, b);
      assert s[..|s| - 1] == [];
    } else {
      NumeralDenotes(Quot(v, b), b, caps);
      DigitRoundTrip(Rem(v, b), caps, b);
      assert s[..|s| - 1] == Numeral(Quot(v, b), b, caps);
    }
  }

  lemma DigitRoundTrip(d: nat, caps: bool, b: nat)
    requires d < 16
    ensures DigitValue(Digit(d, caps)) == d && (d < b ==> DigitOf(Digit(d, caps), b, caps))
  {
  }

  function Pow8(k: nat): (p: nat)
    ensures 1 <= p
  {
    if k == 0 then 1 else 8 * Pow8(k - 1)
  }

  lemma {:induction false} NumeralFits(v: nat, b: nat, caps: bool, k: nat)
    requires Base(b) && v < Pow8(k) && 1 <= k
    ensures |Numeral(v, b, caps)| <= k
    decreases v
  {
    assert Pow8(1) == 8 * Pow8(0) == 8;
    if v >= b {
      NumeralFits(Quot(v, b), b, caps, k - 1);
    }
  }

  /** A 32-bit value needs at most 11 digits, so the 43 bytes of `iconvert` always suffice. */
  lemma WordFits(v: nat, b: nat, caps: bool)
    requires Base(b) && v < WORD
    ensures |Numeral(v, b, caps)| <= 11
  {
    assert Pow8(4) == 4096 by { assert Pow8(2) == 64; }
    assert Pow8(8) == 0x100_0000 by { assert Pow8(6) == 0x4_0000; }
    assert Pow8(11) == 0x2_0000_0000 by { assert Pow8(10) == 0x4000_0000; }
    NumeralFits(v, b, caps, 11);
  }

  // ----- group separators -----

  /** `getnumsep`. */
  function NumSep(digits: nat): (n: nat) {
    (digits - if digits % 3 == 0 && digits > 0 then 1 else 0) / 3
  }

  /** A digit string with a comma before every group of three digits but the first. */
  function Grouped(s: Str): (g: Str) {
    if s == [] then []
    else [s[0]] + (if |s| > 1 && (|s| - 1) % 3 == 0 then [','] else []) + Grouped(s[1..])
  }

  function Commas(s: Str): (n: nat) {
    if s == [] then 0 else (if s[0] == ',' then 1 else 0) + Commas(s[1..])
  }

  function WithoutCommas(s: Str): (r: Str) {
    if s == [] then [] else (if s[0] == ',' then [] else [s[0]]) + WithoutCommas(s[1..])
  }

  /** The separators printed are those `getnumsep` counted, and without them the digits are as before. */
  lemma {:induction false} GroupedDigits(s: Str)
    requires ',' !in s
    ensures |Grouped(s)| == |s| + NumSep(|s|)
    ensures Commas(Grouped(s)) == NumSep(|s|)
    ensures WithoutCommas(Grouped(s)) == s
    decreases |s|
  {
    if s != [] {
      GroupedDigits(s[1..]);
      var g := Grouped(s);
      if |s| > 1 && (|s| - 1) % 3 == 0 {
        assert g[1..] == [','] + Grouped(s[1..]);
        assert g[1..][1..] == Grouped(s[1..]);
      } else {
        assert g[1..] == Grouped(s[1..]);
      }
    }
  }

  lemma NumeralDigits(v: nat, b: nat, caps: bool)
    requires Base(b)
    ensures ',' !in Numeral(v, b, caps)
  {
    hide Numeral, DigitValue;
    NumeralDenotes(v, b, caps);
  }

  // ----- fields -----

  datatype Flags = Flags(minus: bool, plus: bool, space: bool, num: bool, zero: bool, quote: bool)

  const NO_FLAGS := Flags(false, false, false, false, false, false)

  function Fill(c: char, n: int): (s: Str)
    ensures |s| == if n > 0 then n else 0
    ensures forall i :: 0 <= i < |s| ==> s[i] == c
    decreases n
  {
    if n <= 0 then [] else Fill(c, n - 1) + [c]
  }

  function Max(a: int, b: int): int { if a >= b then a else b }

  function Min(a: int, b: int): int { if a <= b then a else b }

  /** A text padded with spaces to a width. */
  function Padded(s: Str, width: int, left: bool): (r: Str)
    ensures |r| == Max(width, |s|)
  {
    if left then s + Fill(' ', width - |s|) else Fill(' ', width - |s|) + s
  }

  /** The part of a string a precision lets through; -1 is no precision. */
  function Clipped(s: Str, precision: int): (r: Str)
    requires -1 <= precision
  {
    if precision == -1 || |s| <= precision then s else s[..precision]
  }

  /** What a number prints before its digits, and its magnitude. */
  function SignOf(v: int, unsigned: bool, fl: Flags): (s: Str) {
    if unsigned then [] else if v < 0 then ['-'] else if fl.plus then ['+'] else if fl.space then [' '] else []
  }

  function Magnitude(v: int, unsigned: bool): (u: nat) {
    if unsigned then v % WORD else if v < 0 then -v else v
  }

  function PrefixOf(u: nat, b: nat, caps: bool, fl: Flags): (s: Str) {
    if fl.num && u != 0 && b == 16 then ['0', if caps then 'X' else 'x'] else []
  }

  /** The precision in force: the `#` flag of an octal conversion may raise it. */
  function PrecisionOf(precision: int, digits: nat, u: nat, b: nat, fl: Flags): (p: int) {
    if fl.num && u != 0 && b == 8 && precision <= digits then digits + 1 else precision
  }

  /** `fmtint`. */
  function IntField(v: int, b: nat, width: int, precision: int, fl: Flags, unsigned: bool, caps: bool): (r: Str)
    requires Base(b) && -1 <= precision
  {
    var u := Magnitude(v, unsigned);
    DigitsField(u, SignOf(v, unsigned, fl) + PrefixOf(u, b, caps, fl), b, width, precision, fl, caps)
  }

  /** The field of a magnitude with what stands before its digits. */
  function DigitsField(u: nat, lead: Str, b: nat, width: int, precision: int, fl: Flags, caps: bool): (r: Str)
    requires Base(b) && -1 <= precision
  {
    var digits := Numeral(u, b, caps);
    var p := PrecisionOf(precision, |digits|, u, b, fl);
    var seps := if fl.quote then NumSep(|digits|) else 0;
    var shown := if fl.quote then Grouped(digits) else digits;
    var zeros := Max(0, p - |digits| - seps);
    var spaces := Max(0, width - seps - Max(p, |digits|) - |lead|);
    Framed(lead, zeros, shown, spaces, fl.minus, fl.zero && precision == -1)
  }

  /** Spaces go to the left, or to the right, or count as zeros. */
  function Framed(lead: Str, zeros: nat, shown: Str, spaces: nat, left: bool, zeroed: bool): (r: Str)
    ensures |r| == |lead| + zeros + |shown| + spaces
  {
    if left then lead + (Fill('0', zeros) + shown) + Fill(' ', spaces)
    else if zeroed then lead + (Fill('0', zeros + spaces) + shown)
    else Fill(' ', spaces) + lead + (Fill('0', zeros) + shown)
  }

  /**
   * The length of a number's field: the width asked for, or what the number needs, whichever is
   * more; short of that only when group separators take the place of zeros the precision asks for.
   */
  lemma IntFieldLength(v: int, b: nat, width: int, precision: int, fl: Flags, unsigned: bool, caps: bool)
    requires Base(b) && -1 <= precision && 0 <= width
    ensures var u := Magnitude(v, unsigned);
            var digits := Numeral(u, b, caps);
            var p := PrecisionOf(precision, |digits|, u, b, fl);
            var seps := if fl.quote then NumSep(|digits|) else 0;
            var need := |SignOf(v, unsigned, fl)| + |PrefixOf(u, b, caps, fl)| + Max(p, |digits|) + seps;
            |IntField(v, b, width, precision, fl, unsigned, caps)| ==
            Max(width, need) - Min(seps, Max(0, p - |digits|))
  {
    hide Numeral, NumSep, Grouped;
    var u := Magnitude(v, unsigned);
    NumeralDigits(u, b, caps);
    GroupedDigits(Numeral(u, b, caps));
  }

  /** The field has exactly the length asked for if and only if no separator displaces a zero. */
  lemma IntFieldExact(v: int, b: nat, width: int, precision: int, fl: Flags, unsigned: bool, caps: bool)
    requires Base(b) && -1 <= precision && 0 <= width
    ensures var u := Magnitude(v, unsigned);
            var digits := Numeral(u, b, caps);
            var p := PrecisionOf(precision, |digits|, u, b, fl);
            var seps := if fl.quote then NumSep(|digits|) else 0;
            var need := |SignOf(v, unsigned, fl)| + |PrefixOf(u, b, caps, fl)| + Max(p, |digits|) + seps;
            |IntField(v, b, width, precision, fl, unsigned, caps)| == Max(width, need)
            <==> !fl.quote || |digits| <= 3 || p <= |digits|
  {
    hide Numeral, IntField;
    IntFieldLength(v, b, width, precision, fl, unsigned, caps);
  }

  /** `%'.6d` of 12345: the separator takes the place of the sixth digit asked for. */
  lemma QuoteDisplacesZero()
    ensures IntField(12345, 10, 0, 6, NO_FLAGS.(quote := true), false, false) == "12,345"
    ensures IntField(12345, 10, 0, 6, NO_FLAGS, false, false) == "012345"
  {
    hide Numeral, Grouped;
    QuotedNumeral();
    QuotedGroups();
    assert Fill('0', 0) == [] && Fill(' ', 0) == [] && Fill('0', 1) == "0";
  }

  lemma QuotedNumeral()
    ensures Numeral(12345, 10, false) == "12345"
  {
    assert Numeral(1, 10, false) == "1";
    hide Numeral;
    AnotherDigit(1, 2);
    AnotherDigit(12, 3);
    AnotherDigit(123, 4);
    AnotherDigit(1234, 5);
  }

  lemma QuotedGroups()
    ensures Grouped("12345") == "12,345"
  {
    assert Grouped("5") == "5" && Grouped("45") == "45" && Grouped("345") == "345";
    assert Grouped("2345") == "2,345" by { assert "2345"[1..] == "345"; }
    assert Grouped("12345") == "12,345" by { assert "12345"[1..] == "2345"; }
  }

  lemma AnotherDigit(v: nat, d: nat)
    requires 0 < v && d < 10
    ensures Numeral(10 * v + d, 10, false) == Numeral(v, 10, false) + [Digit(d, false)]
  {
  }

  lemma {:induction false} ZerosIgnored(z: nat, s: Str, b: nat)
    requires Base(b)
    ensures Denotes(Fill('0', z) + s, b) == Denotes(s, b)
    decreases z, |s|
  {
    var t := Fill('0', z) + s;
    if s != [] {
      assert t[..|t| - 1] == Fill('0', z) + s[..|s| - 1];
      ZerosIgnored(z, s[..|s| - 1], b);
    } else if z > 0 {
      assert t == Fill('0', z) && t[..|t| - 1] == Fill('0', z - 1) + [];
      ZerosIgnored(z - 1, [], b);
    }
  }

  lemma {:induction false} ZerosNoCommas(z: nat, s: Str)
    ensures WithoutCommas(Fill('0', z) + s) == Fill('0', z) + WithoutCommas(s)
    decreases z
  {
    if z == 0 {
      assert Fill('0', z) + s == s;
    } else {
      var t := Fill('0', z) + s;
      FillFront('0', z);
      assert t[1..] == Fill('0', z - 1) + s;
      ZerosNoCommas(z - 1, s);
    }
  }

  lemma FillFront(c: char, n: nat)
    requires 0 < n
    ensures Fill(c, n) == [c] + Fill(c, n - 1)
  {
  }

  /**
   * How a field without separators is laid out: no shorter than the precision and the width, and no
   * longer than it takes; zeros in front only for the precision, for the one of an octal number, or in
   * place of spaces; spaces on the right only when left-justified.
   */
  predicate Laid(lead: Str, body: Str, n: nat, b: nat, before: nat, after: nat, width: int, precision: int, fl: Flags) {
    var all := before + |lead| + |body| + after;
    var padded := fl.zero && precision == -1 && !fl.minus;
    var k := if fl.num && b == 8 && n != 0 then 1 else 0;
    && precision <= |body| && width <= all && (before + after > 0 ==> all == width)
    && |body| > k && (k == 1 ==> body[0] == '0')
    && (|body| > k + 1 && body[k] == '0' ==> |body| == precision || (padded && all == width))
    && (before > 0 ==> !fl.minus && !padded) && (after > 0 ==> fl.minus)
  }

  lemma DigitsFieldLaid(u: nat, lead: Str, b: nat, width: int, precision: int, fl: Flags, caps: bool)
    returns (before: nat, body: Str, after: nat)
    requires Base(b) && -1 <= precision
    ensures DigitsField(u, lead, b, width, precision, fl, caps) == Fill(' ', before) + lead + body + Fill(' ', after)
    ensures AllDigits(WithoutCommas(body), b, caps) && (!fl.quote ==> ',' !in body)
    ensures Denotes(WithoutCommas(body), b) == u
    ensures !fl.quote && 0 <= width ==> Laid(lead, body, u, b, before, after, width, precision, fl)
  {
    hide Numeral, NumSep, Grouped, WithoutCommas, Denotes, Framed, Fill, DigitOf, Laid;
    var digits := Numeral(u, b, caps);
    var p := PrecisionOf(precision, |digits|, u, b, fl);
    var seps := if fl.quote then NumSep(|digits|) else 0;
    var shown := if fl.quote then Grouped(digits) else digits;
    var zeros := Max(0, p - |digits| - seps);
    var spaces := Max(0, width - seps - Max(p, |digits|) - |lead|);
    var zeroed := fl.zero && precision == -1;
    var z := if zeroed && !fl.minus then zeros + spaces else zeros;
    before := if fl.minus || zeroed then 0 else spaces;
    after := if fl.minus then spaces else 0;
    body := Fill('0', z) + shown;
    ShownDigits(u, b, caps, fl.quote, z);
    FramedShape(lead, zeros, shown, spaces, fl.minus, zeroed);
    if !fl.quote && 0 <= width {
      NumeralFirst(u, b, caps);
      LaidOut(u, lead, digits, b, width, precision, fl, z, before, after);
    }
  }

  lemma LaidOut(u: nat, lead: Str, digits: Str, b: nat, width: int, precision: int, fl: Flags,
                z: nat, before: nat, after: nat)
    requires -1 <= precision && 0 <= width && digits != [] && (digits[0] == '0' ==> u == 0 && |digits| == 1)
    requires var p := PrecisionOf(precision, |digits|, u, b, fl);
             var zeros := Max(0, p - |digits|);
             var spaces := Max(0, width - Max(p, |digits|) - |lead|);
             var zeroed := fl.zero && precision == -1;
             && z == (if zeroed && !fl.minus then zeros + spaces else zeros)
             && before == (if fl.minus || zeroed then 0 else spaces) && after == if fl.minus then spaces else 0
    ensures Laid(lead, Fill('0', z) + digits, u, b, before, after, width, precision, fl)
  {
    hide Fill;
    var body := Fill('0', z) + digits;
    assert forall i :: 0 <= i < |body| ==> body[i] == if i < z then '0' else digits[i - z];
  }

  /** No numeral starts with a zero, save that of 0. */
  lemma {:induction false} NumeralFirst(v: nat, b: nat, caps: bool)
    requires Base(b)
    ensures Numeral(v, b, caps)[0] == '0' ==> v == 0 && |Numeral(v, b, caps)| == 1
    decreases v
  {
    if v >= b {
      NumeralFirst(Quot(v, b), b, caps);
      assert Quot(v, b) > 0;
    }
  }

  /**
   * What a number's field says, read back: the number, its sign included; which sign and which prefix
   * stand there; and how digits, zeros and spaces fill the precision and the width.
   */
  lemma IntFieldReadsBack(v: int, b: nat, width: int, precision: int, fl: Flags, unsigned: bool, caps: bool)
    returns (before: nat, sign: Str, prefix: Str, body: Str, after: nat)
    requires Base(b) && -1 <= precision
    ensures IntField(v, b, width, precision, fl, unsigned, caps) ==
            Fill(' ', before) + (sign + prefix) + body + Fill(' ', after)
    ensures AllDigits(WithoutCommas(body), b, caps) && (!fl.quote ==> ',' !in body)
    ensures var n: int := Denotes(WithoutCommas(body), b);
            && (if unsigned then n < 0x1_0000_0000 && (v - n) % 0x1_0000_0000 == 0
                else v == if sign == "-" then -n else n)
            && prefix == (if fl.num && b == 16 && n != 0 then if caps then "0X" else "0x" else "")
            && (!fl.quote && 0 <= width ==> Laid(sign + prefix, body, n, b, before, after, width, precision, fl))
    ensures sign == "-" <==> !unsigned && v < 0
    ensures sign == "+" <==> !unsigned && v >= 0 && fl.plus
    ensures sign == " " <==> !unsigned && v >= 0 && !fl.plus && fl.space
    ensures sign in {"", "-", "+", " "}
  {
    hide DigitsField, Laid, Denotes, WithoutCommas, AllDigits, Fill;
    var u := Magnitude(v, unsigned);
    sign, prefix := SignOf(v, unsigned, fl), PrefixOf(u, b, caps, fl);
    before, body, after := DigitsFieldLaid(u, sign + prefix, b, width, precision, fl, caps);
    assert "-"[0] == '-' && "+"[0] == '+' && " "[0] == ' ';
  }

  /** Digits are characters in a row, and letters go on where they end. */
  lemma DigitChars(d: nat, caps: bool)
    requires d < 16
    ensures Digit(d, caps) as int == if d < 10 then 0x30 + d else (if caps then 0x41 else 0x61) + (d - 10)
  {
  }

  /** Counted from the end, every fourth character of a grouped number is a comma, and no other. */
  lemma GroupsOfThree(s: Str, j: nat)
    requires ',' !in s && j < |Grouped(s)|
    ensures Grouped(s)[|Grouped(s)| - 1 - j] == ',' <==> j % 4 == 3
  {
    CommaAt(s, j);
  }

  predicate Fourth(j: nat) { j % 4 == 3 }

  function FromEnd(g: Str, j: nat): char
    requires j < |g|
  {
    g[|g| - 1 - j]
  }

  lemma {:induction false} CommaAt(s: Str, j: nat)
    requires ',' !in s && j < |Grouped(s)|
    ensures FromEnd(Grouped(s), j) == ',' <==> Fourth(j)
    decreases |s|
  {
    assert s != [];
    hide Grouped, NumSep, Fourth, FromEnd, Commas, WithoutCommas;
    var rest := s[1..];
    RestFree(s);
    GroupedDigits(rest);
    GroupedAt(s, j);
    if j < |Grouped(rest)| {
      CommaAt(rest, j);
    } else {
      GroupEnd(|s| - 1, j);
    }
  }

  lemma RestFree(s: Str)
    requires ',' !in s && s != []
    ensures ',' !in s[1..]
  {
    assert s == [s[0]] + s[1..];
  }

  lemma GroupedAt(s: Str, j: nat)
    requires ',' !in s && s != [] && j < |Grouped(s)|
    ensures var g, rest, m := Grouped(s), Grouped(s[1..]), |s| - 1;
            && |g| == |rest| + (if m > 0 && m % 3 == 0 then 2 else 1)
            && (j < |rest| ==> FromEnd(g, j) == FromEnd(rest, j))
            && (j >= |rest| ==> (FromEnd(g, j) == ',' <==> m > 0 && m % 3 == 0 && j == |rest|))
  {
    var m := |s| - 1;
    var comma := m > 0 && m % 3 == 0;
    assert s[0] != ',' by { assert s[0] in s; }
    assert Grouped(s) == (if comma then [s[0], ','] else [s[0]]) + Grouped(s[1..]);
    hide Grouped, FromEnd;
    HeadAt(s[0], comma, Grouped(s[1..]), Grouped(s), j);
  }

  lemma HeadAt(c: char, comma: bool, rest: Str, g: Str, j: nat)
    requires c != ',' && g == (if comma then [c, ','] else [c]) + rest && j < |g|
    ensures j < |rest| ==> FromEnd(g, j) == FromEnd(rest, j)
    ensures j >= |rest| ==> (FromEnd(g, j) == ',' <==> comma && j == |rest|)
  {
  }

  /** `m` digits with their commas end where the next comma belongs just when they are whole groups. */
  lemma GroupEnd(m: nat, j: nat)
    requires m + NumSep(m) <= j < m + NumSep(m) + if m > 0 && m % 3 == 0 then 2 else 1
    ensures Fourth(j) <==> m > 0 && m % 3 == 0 && j == m + NumSep(m)
  {
    var q := m / 3;
    if m % 3 == 0 {
      assert m > 0 ==> m + NumSep(m) == 4 * (q - 1) + 3;
    } else {
      assert m + NumSep(m) == 4 * q + m % 3;
    }
  }

  lemma FramedShape(lead: Str, zeros: nat, shown: Str, spaces: nat, left: bool, zeroed: bool)
    ensures var z := if zeroed && !left then zeros + spaces else zeros;
            var before := if left || zeroed then 0 else spaces;
            var after := if left then spaces else 0;
            Framed(lead, zeros, shown, spaces, left, zeroed) ==
            Fill(' ', before) + lead + (Fill('0', z) + shown) + Fill(' ', after)
  {
    assert Fill(' ', 0) == [];
  }

  lemma ShownDigits(u: nat, b: nat, caps: bool, quote: bool, z: nat)
    requires Base(b)
    ensures var digits := Numeral(u, b, caps);
            var body := Fill('0', z) + if quote then Grouped(digits) else digits;
            && Denotes(WithoutCommas(body), b) == u
            && AllDigits(WithoutCommas(body), b, caps) && (!quote ==> ',' !in body)
  {
    hide Numeral, Denotes;
    var digits := Numeral(u, b, caps);
    NumeralDenotes(u, b, caps);
    NumeralDigits(u, b, caps);
    GroupedDigits(digits);
    NoCommas(digits);
    ZerosNoCommas(z, if quote then Grouped(digits) else digits);
    ZerosIgnored(z, digits, b);
  }

  lemma {:induction false} NoCommas(s: Str)
    requires ',' !in s
    ensures WithoutCommas(s) == s
    decreases |s|
  {
    if s != [] {
      NoCommas(s[1..]);
    }
  }
}
