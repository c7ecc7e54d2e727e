/** 8.3 names: how a path segment becomes a directory entry's name, and how it is printed back. */
module Names {
  import opened Bytes
  import opened DirEntry
  import opened Listing

  type Text = seq<byte>

  const SPACE := 0x20
  const SLASH := 0x2F
  const BACKSLASH := 0x5C
  const NAME_LAST := 4
  const NT_BODY := 8
  const NT_EXT := 0x10

  // ----- characters (code page 932) -----

  predicate Lead(c: byte) { 0x81 <= c <= 0x9F || 0xE0 <= c <= 0xFC }

  predicate Trail(c: byte) { 0x40 <= c <= 0x7E || 0x80 <= c <= 0xFC }

  predicate IsUpper(c: byte) { 0x41 <= c <= 0x5A }

  predicate IsLower(c: byte) { 0x61 <= c <= 0x7A }

  /** The single-byte characters no short name may contain: " +,;[=]\"*:<>?|" and DEL. */
  predicate Refused(c: byte) {
    c == 0x20 || c == 0x2B || c == 0x2C || c == 0x3B || c == 0x5B || c == 0x3D || c == 0x5D || c == 0x22
    || c == 0x2A || c == 0x3A || c == 0x3C || c == 0x3E || c == 0x3F || c == 0x7C || c == 0x7F
  }

  /** A character that ends a segment. */
  predicate Ends(c: byte) { c < SPACE || c == SLASH || c == BACKSLASH }

  /** The byte at `i` of a NUL-terminated path. */
  function At(p: Text, i: nat): (c: byte)
    requires i <= |p|
    ensures c != 0 ==> i < |p|
  {
    if i < |p| then p[i] else 0
  }

  function Raise(c: byte): byte { if IsLower(c) then c - 0x20 else c }

  // ----- parts of a name -----

  /** The length of the part of a name that `p` starts with, if it fits into `room` bytes. */
  function PartLength(p: Text, room: nat): (n: Option<nat>)
    ensures n.Some? ==> n.value <= |p| && n.value <= room
    ensures n.Some? ==> Ends(At(p, n.value)) || At(p, n.value) == DOT
    decreases |p|
  {
    var c := At(p, 0);
    if Ends(c) || c == DOT then Some(0)
    else if room == 0 then None
    else if Lead(c) then
      if Trail(At(p, 1)) && 2 <= room then More(2, PartLength(p[2..], room - 2)) else None
    else if Refused(c) then None
    else More(1, PartLength(p[1..], room - 1))
  }

  function More(k: nat, n: Option<nat>): Option<nat> {
    match n case None => None case Some(m) => Some(k + m)
  }

  /** Whole characters that may stand in a part. */
  predicate Whole(s: Text)
    decreases |s|
  {
    s == []
    || (Lead(s[0]) && |s| >= 2 && Trail(s[1]) && Whole(s[2..]))
    || (!Lead(s[0]) && !Refused(s[0]) && !Ends(s[0]) && s[0] != DOT && Whole(s[1..]))
  }

  /** A part as it is stored: single-byte letters are raised, pairs are kept. */
  function Stored(s: Text): (r: Text)
    ensures |r| == |s|
    decreases |s|
  {
    if s == [] then []
    else if Lead(s[0]) && |s| >= 2 then [s[0], s[1]] + Stored(s[2..])
    else [Raise(s[0])] + Stored(s[1..])
  }

  /** What a character adds to the case record: 1 for a small letter, 2 for a capital, 3 if extended. */
  function CaseOf(c: byte): (b: nat)
    ensures b < 4
  {
    if c >= 0x80 then 3 else if IsUpper(c) then 2 else if IsLower(c) then 1 else 0
  }

  /** `a | b` on two bits. */
  function Or(a: nat, b: nat): (r: nat)
    requires a < 4 && b < 4
    ensures r < 4
  {
    if a == b || b == 0 then a else if a == 0 then b else 3
  }

  function Cases(s: Text): (b: nat)
    ensures b < 4
    decreases |s|
  {
    if s == [] then 0
    else if Lead(s[0]) && |s| >= 2 then Or(3, Cases(s[2..]))
    else Or(CaseOf(s[0]), Cases(s[1..]))
  }

  /** A character at the end of a part. */
  lemma Appended(s: Text, t: Text)
    requires Whole(s)
    ensures Whole(s + t) <==> Whole(t)
    ensures Stored(s + t) == Stored(s) + Stored(t)
    ensures Cases(s + t) == Or(Cases(s), Cases(t))
  {
    AppendedWhole(s, t);
    AppendedStored(s, t);
    AppendedCases(s, t);
  }

  lemma {:induction false} AppendedWhole(s: Text, t: Text)
    requires Whole(s)
    ensures Whole(s + t) <==> Whole(t)
    decreases |s|
  {
    if s == [] {
      assert s + t == t;
    } else {
      var k := if Lead(s[0]) then 2 else 1;
      assert (s + t)[k..] == s[k..] + t;
      AppendedWhole(s[k..], t);
    }
  }

  lemma {:induction false} AppendedStored(s: Text, t: Text)
    requires Whole(s)
    ensures Stored(s + t) == Stored(s) + Stored(t)
    decreases |s|
  {
    if s == [] {
      assert s + t == t;
    } else {
      hide Stored, Lead, Whole;
      var k := |Front(s)|;
      FrontAppended(s, t);
      AppendedStored(s[k..], t);
      Regroup(Front(s), Stored(s[k..]), Stored(t));
    }
  }

  function Front(s: Text): Text
    requires s != []
  {
    if Lead(s[0]) && |s| >= 2 then [s[0], s[1]] else [Raise(s[0])]
  }

  lemma FrontAppended(s: Text, t: Text)
    requires Whole(s) && s != []
    ensures var k := |Front(s)|;
            && k <= |s| && Whole(s[k..])
            && Stored(s) == Front(s) + Stored(s[k..])
            && Stored(s + t) == Front(s) + Stored(s[k..] + t)
  {
    var k := |Front(s)|;
    assert (s + t)[k..] == s[k..] + t && (s + t)[0] == s[0];
  }

  lemma Regroup(a: Text, b: Text, c: Text)
    ensures a + (b + c) == a + b + c
  {
  }

  lemma {:induction false} AppendedCases(s: Text, t: Text)
    requires Whole(s)
    ensures Cases(s + t) == Or(Cases(s), Cases(t))
    decreases |s|
  {
    hide Refused, Raise, Or, CaseOf;
    if s == [] {
      assert s + t == t;
      OrAssoc(0, 0, Cases(t));
    } else {
      var k := if Lead(s[0]) then 2 else 1;
      assert (s + t)[k..] == s[k..] + t;
      AppendedCases(s[k..], t);
      OrAssoc(if k == 2 then 3 else CaseOf(s[0]), Cases(s[k..]), Cases(t));
    }
  }

  lemma OrAssoc(a: nat, b: nat, c: nat)
    requires a < 4 && b < 4 && c < 4
    ensures Or(Or(a, b), c) == Or(a, Or(b, c)) && Or(0, c) == c
  {
  }

  lemma {:induction false} PartWhole(p: Text, room: nat)
    requires PartLength(p, room).Some?
    ensures Whole(p[..PartLength(p, room).value])
    decreases |p|
  {
    var n := PartLength(p, room).value;
    if n > 0 {
      var k := if Lead(p[0]) then 2 else 1;
      PartWhole(p[k..], room - k);
      assert p[..n][k..] == p[k..][..n - k];
    }
  }

  // ----- a segment and its name -----

  /** A segment taken apart: body, whether a dot follows, extension, and the byte that ends it. */
  datatype Segment = Bad | Good(body: Text, dot: bool, ext: Text, end: byte)

  function Parse(p: Text): (s: Segment) {
    match PartLength(p, 8)
    case None => Bad
    case Some(n) =>
      if At(p, n) == DOT then
        match PartLength(p[n + 1..], 3)
        case None => Bad
        case Some(m) =>
          if At(p, n + 1 + m) == DOT then Bad
          else Good(p[..n], true, p[n + 1..n + 1 + m], At(p, n + 1 + m))
      else if n == 0 then Bad
      else Good(p[..n], false, [], At(p, n))
  }

  /** The segment as it stands in the path. */
  function Spelled(s: Segment): (t: Text)
    requires s.Good?
  {
    s.body + if s.dot then [DOT] + s.ext else []
  }

  function Padded(s: Text, n: nat): (r: Text)
    requires |s| <= n
    ensures |r| == n
    ensures forall i :: 0 <= i < n ==> r[i] == if i < |s| then s[i] else SPACE
  {
    s + seq(n - |s|, _ => SPACE)
  }

  /** 0xE5 would read as a deleted entry; 0x05 stands for it. */
  function Escaped(c: byte): byte { if c == DELETED then 5 else c }

  /** All letters of the part are small ones, there are some, and it has no extended character. */
  predicate Small(s: Text) { Cases(s) == 1 }

  function FlagsOf(s: Segment): (f: byte)
    requires s.Good?
  {
    (if s.end < SPACE then NAME_LAST else 0)
    + (if Small(s.ext) then NT_EXT else 0) + (if Small(s.body) then NT_BODY else 0)
  }

  /** The name `create_name` makes of a segment. */
  function NameOf(s: Segment): (fn: Name)
    requires s.Good? && |s.body| <= 8 && |s.ext| <= 3
  {
    var t := Padded(Stored(s.body), 8) + Padded(Stored(s.ext), 3) + [FlagsOf(s)];
    t[0 := Escaped(t[0])]
  }

  lemma ParseShape(p: Text)
    requires Parse(p).Good?
    ensures var s := Parse(p);
            && |s.body| <= 8 && |s.ext| <= 3 && Whole(s.body) && Whole(s.ext)
            && Ends(s.end) && (s.dot || s.body != []) && (!s.dot ==> s.ext == [])
            && Spelled(s) <= p && s.end == At(p, |Spelled(s)|)
  {
    assert Whole([]);
    hide PartLength, Whole, Ends, Spelled, At;
    var n := PartLength(p, 8).value;
    PartWhole(p, 8);
    if At(p, n) == DOT {
      var m := PartLength(p[n + 1..], 3).value;
      var s := Good(p[..n], true, p[n + 1..n + 1 + m], At(p, n + 1 + m));
      assert Parse(p) == s;
      hide Parse;
      PartWhole(p[n + 1..], 3);
      WithDot(p, n, m);
      assert At(p[n + 1..], m) == At(p, n + 1 + m) by { AtDrop(p, n + 1, m); }
    } else {
      assert Parse(p) == Good(p[..n], false, [], At(p, n));
      hide Parse;
      WithoutDot(p, n);
    }
  }

  /** The characters no name may contain, those that end a segment, and the letters, spelled out. */
  lemma CharClasses(c: byte)
    ensures IsUpper(c) <==> 'A' <= c as char <= 'Z'
    ensures IsLower(c) <==> 'a' <= c as char <= 'z'
    ensures Ends(c) <==> c < ' ' as int || c as char == '/' || c as char == '\\'
    ensures Refused(c) <==> c as char in " +,;[=]\"*:<>?|" || c == 0x7F
  {
    var s := " +,;[=]\"*:<>?|";
    assert |s| == 14 && s[0] == ' ' && s[1] == '+' && s[2] == ',' && s[3] == ';' && s[4] == '[' && s[5] == '=';
    assert s[6] == ']' && s[7] == '\"' && s[8] == '*' && s[9] == ':' && s[10] == '<' && s[11] == '>' && s[12] == '?';
    assert s[13] == '|';
  }

  /** Storing raises a small letter, and keeps any other character and both bytes of a pair. */
  lemma StoredLetters(s: Text, c: byte, d: byte)
    requires Whole(s)
    ensures !Lead(c) ==> Stored(s + [c]) == Stored(s) + [if 0x61 <= c <= 0x7A then c - 0x20 else c]
    ensures Lead(c) ==> Stored(s + [c, d]) == Stored(s) + [c, d]
  {
    hide Whole;
    AppendedStored(s, [c]);
    AppendedStored(s, [c, d]);
    assert [c][1..] == [] && [c, d][2..] == [];
    assert Stored([]) == [];
  }

  /** Every segment of the grammar is accepted, and taken apart as it is put together. */
  lemma ParseComplete(p: Text, body: Text, dot: bool, ext: Text)
    requires Whole(body) && Whole(ext) && |body| <= 8 && |ext| <= 3 && (dot || (body != [] && ext == []))
    requires var t := body + if dot then [DOT] + ext else []; t <= p && Ends(At(p, |t|))
    ensures Parse(p) == Good(body, dot, ext, At(p, |body + if dot then [DOT] + ext else []|))
  {
    assert !Ends(DOT);
    hide PartLength, Whole, Ends;
    if dot {
      DottedParts(p, body, ext);
      hide At;
      PartLengthIs(p, body, 8);
      PartLengthIs(p[|body| + 1..], ext, 3);
    } else {
      assert body + [] == body;
      PartLengthIs(p, body, 8);
    }
  }

  lemma DottedParts(p: Text, body: Text, ext: Text)
    requires body + ([DOT] + ext) <= p
    ensures var n, t := |body|, body + ([DOT] + ext);
            && body <= p && At(p, n) == DOT && p[..n] == body
            && ext <= p[n + 1..] && p[n + 1..n + 1 + |ext|] == ext
            && n + 1 + |ext| == |t| && At(p[n + 1..], |ext|) == At(p, |t|)
  {
    var n, t := |body|, body + ([DOT] + ext);
    assert t[..n] == body && t[n] == DOT && t[n + 1..] == ext;
    assert p[..|t|] == t;
    assert p[..n] == t[..n] && p[n] == t[n] && p[n + 1..n + 1 + |ext|] == t[n + 1..];
    AtDrop(p, n + 1, |ext|);
  }

  lemma {:induction false} PartLengthIs(p: Text, s: Text, room: nat)
    requires Whole(s) && s <= p && |s| <= room && (Ends(At(p, |s|)) || At(p, |s|) == DOT)
    ensures PartLength(p, room) == Some(|s|)
    decreases |s|
  {
    if s != [] {
      hide Refused, Trail, Ends;
      var k := if Lead(s[0]) then 2 else 1;
      AtDrop(p, k, |s| - k);
      PartLengthIs(p[k..], s[k..], room - k);
      PartStep(p, room, k);
    }
  }

  lemma AtDrop(p: Text, a: nat, i: nat)
    requires a + i <= |p|
    ensures At(p[a..], i) == At(p, a + i)
  {
  }

  lemma WithDot(p: Text, n: nat, m: nat)
    requires n + 1 + m <= |p| && At(p, n) == DOT
    ensures p[n + 1..n + 1 + m] == p[n + 1..][..m]
    ensures Spelled(Good(p[..n], true, p[n + 1..n + 1 + m], At(p, n + 1 + m))) == p[..n + 1 + m] <= p
  {
    assert p[..n] + ([DOT] + p[n + 1..n + 1 + m]) == p[..n + 1 + m];
  }

  lemma WithoutDot(p: Text, n: nat)
    requires n <= |p|
    ensures Spelled(Good(p[..n], false, [], At(p, n))) == p[..n] <= p
  {
  }

  // ----- printing -----

  /** The name part printed from `s`: up to the padding, with letters lowered on request. */
  function Shown(s: Text, lower: bool): (r: Text)
    decreases |s|
  {
    if s == [] || s[0] == SPACE then []
    else [if lower && IsUpper(s[0]) then s[0] + 0x20 else s[0]] + Shown(s[1..], lower)
  }

  function Unescaped(c: byte): byte { if c == 5 then DELETED else c }

  function UnescapedAll(s: Text): (r: Text)
    ensures |r| == |s|
    ensures forall i :: 0 <= i < |s| ==> r[i] == Unescaped(s[i])
  {
    seq(|s|, i requires 0 <= i < |s| => Unescaped(s[i]))
  }

  /** What `get_fileinfo` prints for an entry. */
  function Printed(e: Entry): (r: Text) {
    var nt := e[DIR_NTRES];
    Shown(UnescapedAll(e[..8]), HasBit(nt, NT_BODY)) +
    if e[8] == SPACE then [] else [DOT] + Shown(e[8..NAME_LEN], HasBit(nt, NT_EXT))
  }

  /** A text with single-byte case set aside. */
  function Folded(s: Text): (r: Text)
    ensures |r| == |s|
    ensures forall i :: 0 <= i < |s| ==> r[i] == Raise(s[i])
  {
    seq(|s|, i requires 0 <= i < |s| => Raise(s[i]))
  }

  // ----- the two undo each other -----

  /** A single-byte small letter, which storing raises. */
  predicate HasSmall(s: Text)
    decreases |s|
  {
    if s == [] then false
    else if Lead(s[0]) && |s| >= 2 then HasSmall(s[2..])
    else IsLower(s[0]) || HasSmall(s[1..])
  }

  function Lowered(s: Text): (r: Text)
    ensures |r| == |s|
    ensures forall i :: 0 <= i < |s| ==> r[i] == if IsUpper(s[i]) then s[i] + 0x20 else s[i]
  {
    seq(|s|, i requires 0 <= i < |s| => if IsUpper(s[i]) then s[i] + 0x20 else s[i])
  }

  /** A part as it is printed: lowered exactly when the flag was set for it. */
  function Back(s: Text): (r: Text)
    ensures |r| == |s|
  {
    if Small(s) then Lowered(Stored(s)) else Stored(s)
  }

  lemma {:induction false} StoredBytes(s: Text)
    requires Whole(s)
    ensures forall i :: 0 <= i < |s| ==> Stored(s)[i] > SPACE
    ensures s != [] ==> Stored(s)[0] != DOT
    decreases |s|
  {
    if s != [] {
      StoredBytes(s[if Lead(s[0]) then 2 else 1..]);
    }
  }

  /** Storing only raises letters. */
  lemma {:induction false} StoredFolds(s: Text)
    requires Whole(s)
    ensures Folded(Stored(s)) == Folded(s)
    ensures Stored(s) == s <==> !HasSmall(s)
    decreases |s|
  {
    if s != [] {
      var k := if Lead(s[0]) then 2 else 1;
      StoredFolds(s[k..]);
      assert s == s[..k] + s[k..];
      assert Stored(s) == Stored(s)[..k] + Stored(s[k..]);
      assert Stored(s)[k..] == Stored(s[k..]);
      FoldedApart(s[..k], s[k..]);
      FoldedApart(Stored(s)[..k], Stored(s[k..]));
    }
  }

  lemma FoldedApart(s: Text, t: Text)
    ensures Folded(s + t) == Folded(s) + Folded(t)
  {
  }

  /** Lowering what was raised gives a part of small letters back. */
  lemma {:induction false} SmallBack(s: Text)
    requires Whole(s) && Cases(s) <= 1
    ensures Lowered(Stored(s)) == s
    decreases |s|
  {
    if s != [] {
      SmallBack(s[1..]);
      assert s == [s[0]] + s[1..];
    }
  }

  /** Printing a part gives it back up to case, and exactly unless small letters meet others. */
  lemma BackPart(s: Text)
    requires Whole(s)
    ensures Folded(Back(s)) == Folded(s)
    ensures Back(s) == s <==> !HasSmall(s) || Small(s)
  {
    StoredFolds(s);
    if Small(s) {
      SmallBack(s);
    }
  }

  /** A capital or an extended character. */
  predicate HasOther(s: Text)
    decreases |s|
  {
    if s == [] then false else s[0] >= 0x80 || IsUpper(s[0]) || HasOther(s[1..])
  }

  /** The case record of a part says just this. */
  lemma {:induction false} SmallMeans(s: Text)
    requires Whole(s)
    ensures Cases(s) % 2 == 1 <==> HasSmall(s) || Cases(s) == 3
    ensures Cases(s) <= 1 <==> !HasOther(s)
    decreases |s|
  {
    if s != [] {
      SmallMeans(s[if Lead(s[0]) then 2 else 1..]);
    }
  }

  /** Printing stops at the padding. */
  lemma {:induction false} ShownPadded(s: Text, n: nat, lower: bool)
    requires |s| <= n && SPACE !in s
    ensures Shown(Padded(s, n), lower) == if lower then Lowered(s) else s
    decreases |s|
  {
    hide Padded, Lowered;
    if s != [] {
      ShownPadded(s[1..], n - 1, lower);
      assert Padded(s, n)[0] == s[0] && Padded(s, n)[1..] == Padded(s[1..], n - 1);
      assert Lowered(s)[1..] == Lowered(s[1..]);
    } else {
      assert Lowered(s) == [] == s;
    }
  }

  /** The NT flags survive in the entry. */
  lemma FlagsKept(s: Segment)
    requires s.Good?
    ensures HasBit(NtFlags(FlagsOf(s)), NT_BODY) == Small(s.body)
    ensures HasBit(NtFlags(FlagsOf(s)), NT_EXT) == Small(s.ext)
  {
  }

  /** The bytes of a name: body and extension padded with spaces, a first byte that is no mark, and flags. */
  lemma NameLaid(s: Segment)
    requires s.Good? && |s.body| <= 8 && |s.ext| <= 3 && Whole(s.body) && Whole(s.ext)
    ensures var fn, body, ext := NameOf(s), Stored(s.body), Stored(s.ext);
            && fn[0] == (if body == [] then 0x20 else if body[0] == 0xE5 then 0x05 else body[0])
            && (forall i :: 1 <= i < 8 ==> fn[i] == if i < |body| then body[i] else 0x20)
            && (forall i :: 0 <= i < 3 ==> fn[8 + i] == if i < |ext| then ext[i] else 0x20)
            && fn[11] == (if s.end < 0x20 then 0x04 else 0)
                         + (if HasSmall(s.body) && !HasOther(s.body) then 0x08 else 0)
                         + (if HasSmall(s.ext) && !HasOther(s.ext) then 0x10 else 0)
  {
    hide Stored, Whole, Small, HasSmall, HasOther;
    SmallIff(s.body);
    SmallIff(s.ext);
  }

  /** A name made from a segment may be registered and is found again. */
  lemma NameUsable(p: Text)
    requires Parse(p).Good?
    ensures |Parse(p).body| <= 8 && |Parse(p).ext| <= 3 && Usable(NameOf(Parse(p)))
  {
    hide Parse, Stored, Whole;
    ParseShape(p);
    StoredBytes(Parse(p).body);
  }

  /** What is printed for the entry a segment makes. */
  lemma PrintedName(s: Segment)
    requires s.Good? && |s.body| <= 8 && |s.ext| <= 3 && Whole(s.body) && Whole(s.ext)
    ensures Printed(NewEntry(NameOf(s))) == Back(s.body) + if s.ext == [] then [] else [DOT] + Back(s.ext)
  {
    hide Stored, Whole, Small, FlagsOf, Lowered, NewEntry, HasBit, NtFlags;
    var fn := NameOf(s);
    var e := NewEntry(fn);
    var body, ext := Stored(s.body), Stored(s.ext);
    StoredBytes(s.body);
    StoredBytes(s.ext);
    FlagsKept(s);
    assert e[DIR_NTRES] == NtFlags(FlagsOf(s));
    assert e[..8] == e[..NAME_LEN][..8] == fn[..8];
    assert e[8..NAME_LEN] == e[..NAME_LEN][8..] == fn[8..NAME_LEN] == Padded(ext, 3);
    assert UnescapedAll(fn[..8]) == Padded(body, 8);
    ShownPadded(body, 8, Small(s.body));
    ShownPadded(ext, 3, Small(s.ext));
    assert e[8] == Padded(ext, 3)[0];
  }

  /**
   * For every segment accepted, the entry prints it back up to the case of ASCII letters, without a
   * dot at its end; and exactly if and only if in the body and in the extension no small letter
   * meets a capital or an extended character.
   */
  lemma PrintsBack(p: Text)
    requires Parse(p).Good?
    ensures var s := Parse(p);
            && |s.body| <= 8 && |s.ext| <= 3
            && var out := Printed(NewEntry(NameOf(s)));
               && (s.dot && s.ext == [] ==> Folded(out) + [DOT] == Folded(Spelled(s)))
               && (!s.dot || s.ext != [] ==>
                     && Folded(out) == Folded(Spelled(s))
                     && (out == Spelled(s) <==>
                           !(HasSmall(s.body) && HasOther(s.body)) && !(HasSmall(s.ext) && HasOther(s.ext))))
  {
    hide Parse, NewEntry, Printed, NameOf, Back, HasSmall, HasOther, Small, Whole;
    ParseShape(p);
    var s := Parse(p);
    PrintedName(s);
    BackPart(s.body);
    BackPart(s.ext);
    SmallIff(s.body);
    SmallIff(s.ext);
    JoinedBack(Back(s.body), s.body, Back(s.ext), s.ext);
  }

  /** `aB` is accepted and prints back as `AB`. */
  lemma MixedCaseLost()
    ensures var p: Text := [0x61, 0x42];
            Parse(p) == Good(p, false, [], 0) && Printed(NewEntry(NameOf(Parse(p)))) == [0x41, 0x42]
  {
    var p: Text := [0x61, 0x42];
    assert p[1..] == [0x42] && p[1..][1..] == [];
    assert PartLength([], 6) == Some(0);
    assert PartLength([0x42], 7) == Some(1) by { assert [0x42][1..] == []; }
    assert PartLength(p, 8) == Some(2);
    assert p[..2] == p;
    var s := Parse(p);
    ParseShape(p);
    PrintedName(s);
    assert Stored(p) == [0x41, 0x42] && Cases(p) == 3;
  }

  lemma SmallIff(s: Text)
    requires Whole(s)
    ensures Small(s) <==> HasSmall(s) && !HasOther(s)
  {
    SmallMeans(s);
  }

  lemma JoinedBack(a: Text, body: Text, b: Text, ext: Text)
    requires Folded(a) == Folded(body) && Folded(b) == Folded(ext) && |a| == |body| && |b| == |ext|
    ensures Folded(a + ([DOT] + b)) == Folded(body + ([DOT] + ext))
    ensures a + ([DOT] + b) == body + ([DOT] + ext) <==> a == body && b == ext
    ensures Folded(a) + [DOT] == Folded(body + [DOT]) && a + [] == a && body + [] == body
  {
    var x, y := a + ([DOT] + b), body + ([DOT] + ext);
    assert x[..|a|] == a && y[..|a|] == body && x[|a| + 1..] == b && y[|a| + 1..] == ext;
    FoldedApart(a, [DOT] + b);
    FoldedApart(body, [DOT] + ext);
    FoldedApart([DOT], b);
    FoldedApart([DOT], ext);
    FoldedApart(body, [DOT]);
    assert Folded([DOT]) == [DOT];
  }

  // ----- the loops -----

  /** `b |= bits` on the low two bits of the case record. */
  function Noted(b: nat, bits: nat): (r: nat)
    requires bits < 4
    ensures r / 4 == b / 4 && r % 4 == Or(b % 4, bits)
  {
    b / 4 * 4 + Or(b % 4, bits)
  }

  lemma NotedLow(a: nat, c: nat, bits: nat)
    requires c < 4 && bits < 4
    ensures Noted(4 * a + c, bits) == 4 * a + Or(c, bits)
  {
    hide Or;
  }

  /** Room for a character: what is behind `si` decides what `PartLength` says from `from` on. */
  ghost predicate Scanning(p: Text, from: nat, si: nat, room: nat, left: nat) {
    && from <= si <= |p| && left <= room && si - from == room - left
    && Whole(p[from..si])
    && PartLength(p[from..], room) == More(si - from, PartLength(p[si..], left))
  }

  lemma ScanStart(p: Text, from: nat, room: nat)
    requires from <= |p|
    ensures Scanning(p, from, from, room, room)
  {
    assert p[from..from] == [];
  }

  /** The next character may be taken: it has `k` bytes and there is room for them. */
  predicate CharFits(p: Text, si: nat, left: nat, k: nat)
    requires si <= |p|
  {
    var c := At(p, si);
    && !Ends(c) && c != DOT && k == (if Lead(c) then 2 else 1) && k <= left && si + k <= |p|
    && if Lead(c) then Trail(At(p, si + 1)) else !Refused(c)
  }

  /** One character, of one or two bytes, is taken. */
  lemma ScanOne(p: Text, from: nat, si: nat, room: nat, left: nat, k: nat)
    requires Scanning(p, from, si, room, left) && CharFits(p, si, left, k)
    ensures Scanning(p, from, si + k, room, left - k)
    ensures var s, t := p[from..si], p[si..si + k];
            && Stored(p[from..si + k]) == Stored(s) + (if k == 2 then t else [Raise(t[0])])
            && Cases(p[from..si + k]) == Or(Cases(s), if k == 2 then 3 else CaseOf(t[0]))
  {
    hide Refused, Trail, Raise, Or, CaseOf, Ends, PartLength, Whole, Stored, Cases;
    Slices(p, from, si, k);
    Appended(p[from..si], p[si..si + k]);
    OneChar(p[si..si + k]);
    PartStep(p[si..], left, k);
  }

  lemma Slices(p: Text, from: nat, si: nat, k: nat)
    requires from <= si && si + k <= |p| && 0 < k
    ensures p[from..si] + p[si..si + k] == p[from..si + k]
    ensures p[si..][k..] == p[si + k..]
    ensures At(p, si) == p[si] == p[si..][0] == p[si..si + k][0]
    ensures 1 < k ==> At(p, si + 1) == p[si + 1] == p[si..][1] == p[si..si + k][1]
  {
  }

  /** A single character as a part of its own. */
  lemma OneChar(t: Text)
    requires t != [] && |t| == (if Lead(t[0]) then 2 else 1)
    requires if Lead(t[0]) then Trail(t[1]) else !Refused(t[0]) && !Ends(t[0]) && t[0] != DOT
    ensures Whole(t) && Stored(t) == (if Lead(t[0]) then t else [Raise(t[0])])
    ensures Cases(t) == if Lead(t[0]) then 3 else CaseOf(t[0])
  {
    hide Refused, Trail, Raise, CaseOf, Ends;
  }

  lemma PartStep(q: Text, room: nat, k: nat)
    requires q != [] && !Ends(q[0]) && q[0] != DOT && k == (if Lead(q[0]) then 2 else 1) && k <= room
    requires if Lead(q[0]) then k <= |q| && Trail(q[1]) else !Refused(q[0])
    ensures PartLength(q, room) == More(k, PartLength(q[k..], room - k))
  {
    hide Refused, Trail, Ends;
  }

  /**
   * How far `create_name` has come: `from` is where the current part starts, `i` and `ni` are where the
   * next character goes and where the part must end, `b` is the case record.
   */
  ghost predicate Filling(p: Text, t: Text, from: nat, si: nat, i: nat, ni: nat, b: nat) {
    && |t| == 12 && from <= si <= |p| && i <= ni <= 11 && (forall k :: i <= k < 11 ==> t[k] == SPACE)
    && if ni == 8 then from == 0 && InBody(p, t, si, i, b) else ni == 11 && InExt(p, t, from, si, i, b)
  }

  ghost predicate InBody(p: Text, t: Text, si: nat, i: nat, b: nat)
    requires |t| == 12 && si <= |p| && i <= 11
  {
    && i == si && i <= 8 && Scanning(p, 0, si, 8, 8 - i)
    && t[..i] == Stored(p[0..si]) && b == Cases(p[0..si])
  }

  ghost predicate InExt(p: Text, t: Text, from: nat, si: nat, i: nat, b: nat)
    requires |t| == 12 && from <= si <= |p| && i <= 11
  {
    && 1 <= from && PartLength(p, 8) == Some(from - 1) && At(p, from - 1) == DOT
    && i == 8 + (si - from) && Scanning(p, from, si, 3, 11 - i)
    && t[..8] == Padded(Stored(p[..from - 1]), 8) && t[8..i] == Stored(p[from..si])
    && b == 4 * Cases(p[..from - 1]) + Cases(p[from..si])
  }

  lemma FillStart(p: Text, t: Text)
    requires |t| == 12 && forall k :: 0 <= k < 11 ==> t[k] == SPACE
    ensures Filling(p, t, 0, 0, 0, 8, 0)
  {
    ScanStart(p, 0, 8);
    assert p[0..0] == [];
  }

  /** A dot ends the body. */
  lemma FillDot(p: Text, t: Text, si: nat, i: nat, b: nat)
    requires Filling(p, t, 0, si, i, 8, b) && At(p, si) == DOT
    ensures si < |p| && Filling(p, t, si + 1, si + 1, 8, 11, 4 * b)
  {
    hide Stored, Cases, Whole;
    assert p[0..] == p && p[0..si] == p[..si];
    NoLength(p, si, 8 - i);
    ScanStart(p, si + 1, 3);
    assert p[si + 1..si + 1] == [];
    assert t[..8] == Padded(Stored(p[..si]), 8);
    assert Stored([]) == [] && Cases([]) == 0 by { EmptyPart(); }
  }

  lemma EmptyPart()
    ensures Stored([]) == [] && Cases([]) == 0
  {
  }

  /** The part ends here. */
  lemma NoLength(p: Text, si: nat, left: nat)
    requires si <= |p| && (Ends(At(p, si)) || At(p, si) == DOT)
    ensures PartLength(p[si..], left) == Some(0)
  {
    AtDrop(p, si, 0);
  }

  /** A character goes into the name. */
  lemma FillChar(p: Text, t: Text, t': Text, from: nat, si: nat, i: nat, ni: nat, b: nat, k: nat)
    requires Filling(p, t, from, si, i, ni, b) && CharFits(p, si, ni - i, k)
    requires |t'| == 12 && (forall j :: 0 <= j < i || i + k <= j < 11 ==> t'[j] == t[j])
    requires t'[i..i + k] == if k == 2 then p[si..si + 2] else [Raise(p[si])]
    ensures Filling(p, t', from, si + k, i + k, ni, Noted(b, if k == 2 then 3 else CaseOf(p[si])))
  {
    hide InBody, InExt, CaseOf, Raise, Lead, Trail, Refused, Ends, Noted;
    if ni == 8 {
      BodyChar(p, t, t', si, i, b, k);
    } else {
      ExtChar(p, t, t', from, si, i, b, k);
    }
  }

  lemma BodyChar(p: Text, t: Text, t': Text, si: nat, i: nat, b: nat, k: nat)
    requires |t| == |t'| == 12 && 0 < k && si + k <= |p| && i + k <= 8
    requires InBody(p, t, si, i, b) && CharFits(p, si, 8 - i, k)
    requires t'[..i] == t[..i] && t'[i..i + k] == if k == 2 then p[si..si + 2] else [Raise(p[si])]
    ensures InBody(p, t', si + k, i + k, Noted(b, if k == 2 then 3 else CaseOf(p[si])))
  {
    hide Stored, Cases, Scanning, CharFits, CaseOf, Raise, Or, Noted;
    ScanOne(p, 0, si, 8, 8 - i, k);
    NotedLow(0, b, if k == 2 then 3 else CaseOf(p[si]));
    assert t'[..i + k] == t[..i] + t'[i..i + k];
  }

  lemma ExtChar(p: Text, t: Text, t': Text, from: nat, si: nat, i: nat, b: nat, k: nat)
    requires |t| == |t'| == 12 && 0 < k && from <= si && si + k <= |p| && i + k <= 11
    requires InExt(p, t, from, si, i, b) && CharFits(p, si, 11 - i, k)
    requires t'[..i] == t[..i] && t'[i..i + k] == if k == 2 then p[si..si + 2] else [Raise(p[si])]
    ensures InExt(p, t', from, si + k, i + k, Noted(b, if k == 2 then 3 else CaseOf(p[si])))
  {
    hide Stored, Cases, Scanning, CharFits, CaseOf, Raise, Or, Noted, Padded;
    ScanOne(p, from, si, 3, 11 - i, k);
    NotedLow(Cases(p[..from - 1]), Cases(p[from..si]), if k == 2 then 3 else CaseOf(p[si]));
    assert t'[8..i + k] == t'[..i][8..] + t'[i..i + k] && t[8..i] == t[..i][8..];
    assert t'[..8] == t'[..i][..8] && t[..8] == t[..i][..8];
  }

  /** Without a next character the part, and with it the segment, is refused. */
  lemma FillBad(p: Text, t: Text, from: nat, si: nat, i: nat, ni: nat, b: nat)
    requires Filling(p, t, from, si, i, ni, b)
    requires PartLength(p[si..], ni - i) == None || (ni == 11 && At(p, si) == DOT)
    ensures Parse(p) == Bad
  {
    hide Stored, Cases, Whole, Ends, PartLength, Padded;
    assert p[0..] == p;
    if At(p, si) == DOT {
      NoLength(p, si, ni - i);
    }
  }

  lemma NoChar(p: Text, si: nat, left: nat, k: nat)
    requires si <= |p| && !Ends(At(p, si)) && At(p, si) != DOT && k == (if Lead(At(p, si)) then 2 else 1)
    requires left < k || (if k == 2 then si + 2 > |p| || !Trail(At(p, si + 1)) else Refused(At(p, si)))
    ensures PartLength(p[si..], left) == None
  {
    AtDrop(p, si, 0);
    if k == 2 {
      AtDrop(p, si, 1);
    }
  }

  /** At the end of the segment the name is complete. */
  lemma FillDone(p: Text, t: Text, from: nat, si: nat, i: nat, ni: nat, b: nat)
    requires Filling(p, t, from, si, i, ni, b) && Ends(At(p, si))
    ensures i == 0 ==> Parse(p) == Bad
    ensures i != 0 ==>
              && Parse(p) == (if ni == 8 then Good(p[..si], false, [], At(p, si))
                              else Good(p[..from - 1], true, p[from..si], At(p, si)))
              && |Spelled(Parse(p))| == si
              && t[..11] == Padded(Stored(Parse(p).body), 8) + Padded(Stored(Parse(p).ext), 3)
              && (if ni == 8 then 4 * b else b) == 4 * Cases(Parse(p).body) + Cases(Parse(p).ext)
  {
    hide Parse, Spelled, Stored, Cases, Padded, InBody, InExt;
    if ni == 8 {
      BodyDone(p, t, si, i, b);
    } else {
      ExtDone(p, t, from, si, i, b);
    }
  }

  lemma BodyDone(p: Text, t: Text, si: nat, i: nat, b: nat)
    requires |t| == 12 && si <= |p| && i <= 11 && InBody(p, t, si, i, b) && Ends(At(p, si))
    requires forall k :: i <= k < 11 ==> t[k] == SPACE
    ensures if i == 0 then Parse(p) == Bad else Parse(p) == Good(p[..si], false, [], At(p, si))
    ensures |p[..si]| == si && t[..11] == Padded(Stored(p[..si]), 8) + Padded(Stored([]), 3)
    ensures 4 * b == 4 * Cases(p[..si]) + Cases([])
    ensures i != 0 ==> |Spelled(Parse(p))| == si
  {
    hide Stored, Cases, Whole, Ends, PartLength;
    assert p[0..] == p && p[0..si] == p[..si];
    assert Ends(At(p, si)) ==> At(p, si) != DOT by { EndsNoDot(At(p, si)); }
    NoLength(p, si, 8 - i);
    EmptyPart();
  }

  lemma EndsNoDot(c: byte)
    ensures Ends(c) ==> c != DOT
  {
  }

  lemma ExtDone(p: Text, t: Text, from: nat, si: nat, i: nat, b: nat)
    requires |t| == 12 && from <= si <= |p| && i <= 11 && InExt(p, t, from, si, i, b) && Ends(At(p, si))
    requires forall k :: i <= k < 11 ==> t[k] == SPACE
    ensures from <= |p| && Parse(p) == Good(p[..from - 1], true, p[from..si], At(p, si))
    ensures 8 <= i && |Spelled(Parse(p))| == si
    ensures t[..11] == Padded(Stored(p[..from - 1]), 8) + Padded(Stored(p[from..si]), 3)
    ensures b == 4 * Cases(p[..from - 1]) + Cases(p[from..si])
  {
    hide Stored, Cases, Whole, Ends, PartLength;
    EndsNoDot(At(p, si));
    NoLength(p, si, 11 - i);
    assert p[from - 1 + 1..] == p[from..];
    assert t[..11] == t[..8] + t[8..11];
    forall j | 0 <= j < 3 ensures t[8..11][j] == Padded(t[8..i], 3)[j] {
      assert t[8..11][j] == t[8 + j];
    }
    assert t[8..11] == Padded(t[8..i], 3);
  }

  /** `create_name`: the name of the segment `p` starts with, and where the next segment starts. */
  method CreateName(p: Text, fn: array<byte>) returns (ok: bool, next: nat)
    requires fn.Length == 12
    modifies fn
    ensures ok <==> Parse(p).Good?
    ensures ok ==>
              && |Parse(p).body| <= 8 && |Parse(p).ext| <= 3
              && fn[..] == NameOf(Parse(p)) && next == |Spelled(Parse(p))| + 1
  {
    hide Filling, Parse, Spelled, CharFits, PartLength, Stored, Cases, Whole, Refused, Lead, Trail, Ends;
    forall k | 0 <= k < 11 {
      fn[k] := SPACE;
    }
    var si, i, b, ni := 0, 0, 0, 8;
    ghost var from: nat := 0;
    FillStart(p, fn[..]);
    while !Ends(At(p, si))
      invariant si <= |p| && i <= ni <= 11 && (ni == 8 || ni == 11) && (ni == 8 ==> from == 0)
      invariant Filling(p, fn[..], from, si, i, ni, b)
      decreases |p| - si
    {
      var c := At(p, si);
      if c == DOT || i >= ni {
        if ni != 8 || c != DOT {
          Refusal(p, fn[..], from, si, i, ni, b);
          return false, si;
        }
        FillDot(p, fn[..], si, i, b);
        si, i, b, ni, from := si + 1, 8, 4 * b, 11, si + 1;
      } else {
        var k;
        k, b := TakeChar(p, fn, from, si, i, ni, b);
        if k == 0 {
          return false, si;
        }
        si, i := si + k, i + k;
      }
    }
    FillDone(p, fn[..], from, si, i, ni, b);
    if i == 0 {
      return false, si;
    }
    next := si + 1;
    Finish(p, fn, At(p, si), if ni == 8 then 4 * b else b);
    ok := true;
  }

  /** A character where a part has no room, or a second dot. */
  lemma Refusal(p: Text, t: Text, from: nat, si: nat, i: nat, ni: nat, b: nat)
    requires Filling(p, t, from, si, i, ni, b) && !Ends(At(p, si))
    requires (At(p, si) == DOT && ni != 8) || (At(p, si) != DOT && i >= ni)
    ensures Parse(p) == Bad
  {
    hide Parse, PartLength, Scanning, Stored, Cases, Refused, Lead, Trail, Ends;
    if At(p, si) != DOT {
      NoChar(p, si, ni - i, if Lead(At(p, si)) then 2 else 1);
    }
    FillBad(p, t, from, si, i, ni, b);
  }

  /** `create_name`: store the next character; 0 when it may not stand in a name. */
  method TakeChar(p: Text, fn: array<byte>, ghost from: nat, si: nat, i: nat, ni: nat, b: nat)
    returns (k: nat, b': nat)
    requires fn.Length == 12 && si <= |p| && i < ni <= 11
    requires Filling(p, fn[..], from, si, i, ni, b) && !Ends(At(p, si)) && At(p, si) != DOT
    modifies fn
    ensures k == 0 ==> Parse(p) == Bad
    ensures k != 0 ==> si + k <= |p| && i + k <= ni && Filling(p, fn[..], from, si + k, i + k, ni, b')
  {
    hide Filling, Parse, PartLength, Stored, Cases, Whole, Refused, Lead, Trail;
    var c := At(p, si);
    ghost var t := fn[..];
    b' := b;
    if Lead(c) {
      Inside(p, si);
      var d := At(p, si + 1);
      if !Trail(d) || i >= ni - 1 {
        NoChar(p, si, ni - i, 2);
        FillBad(p, t, from, si, i, ni, b);
        return 0, b;
      }
      TrailInside(p, si);
      fn[i], fn[i + 1] := c, d;
      FillChar(p, t, fn[..], from, si, i, ni, b, 2);
      b' := Noted(b, 3);
      return 2, b';
    }
    if Refused(c) {
      NoChar(p, si, ni - i, 1);
      FillBad(p, t, from, si, i, ni, b);
      return 0, b;
    }
    b' := Noted(b, CaseOf(c));
    fn[i] := Raise(c);
    FillChar(p, t, fn[..], from, si, i, ni, b, 1);
    return 1, b';
  }

  lemma Inside(p: Text, si: nat)
    requires si <= |p| && !Ends(At(p, si))
    ensures si < |p|
  {
  }

  lemma TrailInside(p: Text, si: nat)
    requires si + 1 <= |p| && Trail(At(p, si + 1))
    ensures si + 2 <= |p| && p[si] == At(p, si) && p[si + 1] == At(p, si + 1)
    ensures p[si..si + 2] == [p[si], p[si + 1]]
  {
  }

  /** `create_name`: escape the first byte and add the flags. */
  method Finish(p: Text, fn: array<byte>, c: byte, b: nat)
    requires fn.Length == 12 && Parse(p).Good? && c == Parse(p).end
    requires |Parse(p).body| <= 8 && |Parse(p).ext| <= 3
    requires fn[..11] == Padded(Stored(Parse(p).body), 8) + Padded(Stored(Parse(p).ext), 3)
    requires b == 4 * Cases(Parse(p).body) + Cases(Parse(p).ext)
    modifies fn
    ensures fn[..] == NameOf(Parse(p))
  {
    hide Parse, Stored, Cases;
    var f: byte := if c < SPACE then NAME_LAST else 0;
    if fn[0] == DELETED {
      fn[0] := 5;
    }
    if b % 4 == 1 {
      f := f + NT_EXT;
    }
    if b / 4 % 4 == 1 {
      f := f + NT_BODY;
    }
    fn[11] := f;
    assert fn[..] == NameOf(Parse(p));
  }

  /** `get_fileinfo`: print the name of an entry. */
  method PrintName(e: Entry) returns (out: Text)
    ensures out == Printed(e)
  {
    var nt := e[DIR_NTRES];
    out := PrintPart(e[..8], HasBit(nt, NT_BODY), true);
    if e[8] != SPACE {
      var more := PrintPart(e[8..NAME_LEN], HasBit(nt, NT_EXT), false);
      out := out + ([DOT] + more);
    }
  }

  /** `get_fileinfo`: one of its two loops; only the first turns 0x05 back. */
  method PrintPart(s: Text, lower: bool, unescape: bool) returns (out: Text)
    ensures out == Shown(if unescape then UnescapedAll(s) else s, lower)
  {
    hide Shown;
    out := [];
    var i := 0;
    ghost var src := if unescape then UnescapedAll(s) else s;
    assert src[0..] == src;
    ShownEnd(src, lower);
    while i < |s|
      invariant 0 <= i <= |s| == |src|
      invariant out + Shown(src[i..], lower) == Shown(src, lower)
    {
      var c := s[i];
      ShownFront(out, src, i, lower);
      if c == SPACE {
        return;
      }
      if unescape && c == 5 {
        c := DELETED;
      }
      if lower && IsUpper(c) {
        c := c + 0x20;
      }
      out := out + [c];
      i := i + 1;
    }
  }

  lemma ShownEnd(s: Text, lower: bool)
    ensures Shown(s[|s|..], lower) == []
  {
  }

  lemma ShownFront(out: Text, s: Text, i: nat, lower: bool)
    requires i < |s|
    ensures var c := if lower && IsUpper(s[i]) then s[i] + 0x20 else s[i];
            out + Shown(s[i..], lower) == if s[i] == SPACE then out else out + [c] + Shown(s[i + 1..], lower)
  {
    assert s[i..][1..] == s[i + 1..];
    Regroup(out, [if lower && IsUpper(s[i]) then s[i] + 0x20 else s[i]], Shown(s[i + 1..], lower));
  }
}
