/**
 * The USB Gecko loader: a framing parser that keeps its state between calls. A message is a magic
 * word, a big-endian length and that many bytes, which go straight to memory.
 */
module Gecko {
  import opened Bytes
  import L = Layout

  const WORD := 0x1_0000_0000
  const BUFFER_MAX := 20 * 1024 * 1024
  const BIN_ARM := 0x4241_524D
  const BIN_PPC := 0x4250_5043
  const PPC_BASE := 0x1010_0000
  const ARM_BASE := 0
  const HEADER_SIZE := 16
  const ALARM := 1898 * 5000

  predicate Magic(c: nat) { c == BIN_ARM || c == BIN_PPC }

  function BaseFor(cmd: nat): nat { if cmd == BIN_ARM then ARM_BASE else PPC_BASE }

  /** `(w << 8) | b` in 32 bits. */
  function Shift(w: nat, b: byte): (r: nat)
    ensures r < WORD
  {
    (w * 0x100 + b) % WORD
  }

  // ----- the one-shot parser -----

  /** What has been understood of the bytes so far. */
  datatype Parsed =
    | Hunting(cmd: nat)
    | Sizing(cmd: nat, len: nat, left: nat)
    | Filling(cmd: nat, len: nat, got: seq<byte>)
    | Rejected

  function Eat(s: Parsed, b: byte): (r: Parsed) {
    match s
    case Hunting(c) => if Magic(Shift(c, b)) then Sizing(Shift(c, b), 0, 4) else Hunting(Shift(c, b))
    case Sizing(c, n, left) =>
      if left > 1 then Sizing(c, Shift(n, b), left - 1)
      else if Shift(n, b) > BUFFER_MAX then Rejected
      else Filling(c, Shift(n, b), [])
    case Filling(c, n, got) => Filling(c, n, got + [b])
    case Rejected => Rejected
  }

  function EatAll(s: Parsed, bytes: seq<byte>): (r: Parsed)
    decreases |bytes|
  {
    if bytes == [] then s else Eat(EatAll(s, bytes[..|bytes| - 1]), bytes[|bytes| - 1])
  }

  /** Where the stream is cut does not matter. */
  lemma {:induction false} EatApart(s: Parsed, a: seq<byte>, b: seq<byte>)
    ensures EatAll(s, a + b) == EatAll(EatAll(s, a), b)
    decreases |b|
  {
    if b == [] {
      assert a + b == a;
    } else {
      assert (a + b)[..|a + b| - 1] == a + b[..|b| - 1];
      EatApart(s, a, b[..|b| - 1]);
    }
  }

  /** The four bytes of a word, the most significant first. */
  function BigEndian(w: nat): (b: seq<byte>)
    requires w < WORD
    ensures |b| == 4
  {
    [w / 0x100_0000, w / 0x1_0000 % 0x100, w / 0x100 % 0x100, w % 0x100]
  }

  /** The last byte counts least, and the magic words are the letters BPPC and BARM. */
  lemma MagicBytes(w: nat)
    requires w < WORD
    ensures BigEndian(w)[3] == w % 0x100 && BigEndian(w / 0x100) == [0] + BigEndian(w)[..3]
    ensures BigEndian(BIN_PPC) == [0x42, 0x50, 0x50, 0x43] && BigEndian(BIN_ARM) == [0x42, 0x41, 0x52, 0x4D]
  {
    var v := w / 0x100;
    assert v / 0x100_0000 == 0 && v / 0x1_0000 == w / 0x100_0000 && v / 0x100 == w / 0x1_0000;
  }

  /** Garbage: no magic word shows up in it, nor across its end before the message's own is complete. */
  predicate NoMagic(c: nat, s: seq<byte>)
    decreases |s|
  {
    s == [] || (!Magic(Shift(c, s[0])) && NoMagic(Shift(c, s[0]), s[1..]))
  }

  lemma {:induction false} SkipGarbage(c: nat, s: seq<byte>)
    requires NoMagic(c, s)
    ensures EatAll(Hunting(c), s).Hunting?
    decreases |s|
  {
    if s != [] {
      SkipGarbage(Shift(c, s[0]), s[1..]);
      assert [s[0]] + s[1..] == s;
      EatApart(Hunting(c), [s[0]], s[1..]);
      EatOne(Hunting(c), s[0]);
    }
  }

  lemma NothingEaten(s: Parsed, input: seq<byte>)
    ensures EatAll(s, input[..0]) == s
  {
  }

  lemma EatNext(s: Parsed, input: seq<byte>, k: nat, b: byte)
    requires k < |input| && input[k] == b
    ensures EatAll(s, input[..k + 1]) == Eat(EatAll(s, input[..k]), b)
  {
    assert input[..k + 1][..k] == input[..k];
  }

  lemma EatOne(s: Parsed, b: byte)
    ensures EatAll(s, [b]) == Eat(s, b)
  {
    assert [b][..0] == [];
  }

  lemma ShiftLow(w: nat, b: byte)
    ensures Shift(w, b) % 0x100 == b
    ensures Shift(w, b) % 0x1_0000 == w % 0x100 * 0x100 + b
    ensures Shift(w, b) % 0x100_0000 == w % 0x1_0000 * 0x100 + b
    ensures Shift(w, b) == w % 0x100_0000 * 0x100 + b
  {
    var x := w * 0x100 + b;
    LowBytes(w, b);
    L.DivUnique(x, w / 0x100_0000, w % 0x100_0000 * 0x100 + b, WORD);
    LowBytes(w % 0x100_0000, b);
    L.DivUnique(w, w / 0x100_0000 * 0x1_0000 + w % 0x100_0000 / 0x100, w % 0x100_0000 % 0x100, 0x100);
    L.DivUnique(w, w / 0x100_0000 * 0x100 + w % 0x100_0000 / 0x1_0000, w % 0x100_0000 % 0x1_0000, 0x1_0000);
  }

  lemma LowBytes(w: nat, b: byte)
    ensures (w * 0x100 + b) % 0x100 == b
    ensures (w * 0x100 + b) % 0x1_0000 == w % 0x100 * 0x100 + b
    ensures (w * 0x100 + b) % 0x100_0000 == w % 0x1_0000 * 0x100 + b
  {
    L.DivUnique(w * 0x100 + b, w, b, 0x100);
    L.DivUnique(w * 0x100 + b, w / 0x100, w % 0x100 * 0x100 + b, 0x1_0000);
    L.DivUnique(w * 0x100 + b, w / 0x1_0000, w % 0x1_0000 * 0x100 + b, 0x100_0000);
  }

  /** The number four bytes denote. */
  function Value(b: seq<byte>): (w: nat)
    requires |b| == 4
  {
    (b[0] as int) * 0x100_0000 + (b[1] as int) * 0x1_0000 + (b[2] as int) * 0x100 + (b[3] as int)
  }

  lemma Composed(w: nat)
    requires w < WORD
    ensures Value(BigEndian(w)) == w
  {
    var x, y := w / 0x100, w / 0x1_0000;
    assert x / 0x100 == y && y / 0x100 == w / 0x100_0000;
  }

  /** Four bytes shifted in replace whatever was there. */
  lemma WordShifted(c: nat, w: nat)
    requires w < WORD
    ensures var b := BigEndian(w);
            Shift(Shift(Shift(Shift(c, b[0]), b[1]), b[2]), b[3]) == w
  {
    hide Shift, BigEndian;
    var b := BigEndian(w);
    var x := Shift(c, b[0]);
    var y := Shift(x, b[1]);
    var z := Shift(y, b[2]);
    ShiftLow(c, b[0]);
    ShiftLow(x, b[1]);
    ShiftLow(y, b[2]);
    ShiftLow(z, b[3]);
    Composed(w);
  }

  lemma {:induction false} EatPayload(cmd: nat, len: nat, got: seq<byte>, payload: seq<byte>)
    ensures EatAll(Filling(cmd, len, got), payload) == Filling(cmd, len, got + payload)
    decreases |payload|
  {
    if payload == [] {
      assert got + payload == got;
    } else {
      EatPayload(cmd, len, got, payload[..|payload| - 1]);
      assert got + payload == got + payload[..|payload| - 1] + [payload[|payload| - 1]];
    }
  }

  /** Garbage, magic, length and payload are understood as that message. */
  lemma Framing(garbage: seq<byte>, cmd: nat, payload: seq<byte>)
    requires Magic(cmd) && |payload| <= BUFFER_MAX
    requires NoMagic(0, garbage + BigEndian(cmd)[..3])
    ensures EatAll(Hunting(0), garbage + BigEndian(cmd) + BigEndian(|payload|) + payload) ==
            Filling(cmd, |payload|, payload)
  {
    hide Shift;
    var m, n := BigEndian(cmd), BigEndian(|payload|);
    SkipGarbage(0, garbage + m[..3]);
    assert garbage + m == garbage + m[..3] + [m[3]];
    MagicFound(garbage, cmd);
    EatApart(Hunting(0), garbage + m, n);
    SizeRead(cmd, |payload|);
    EatApart(Hunting(0), garbage + m + n, payload);
    EatPayload(cmd, |payload|, [], payload);
    assert [] + payload == payload;
  }

  lemma MagicFound(garbage: seq<byte>, cmd: nat)
    requires Magic(cmd) && NoMagic(0, garbage + BigEndian(cmd)[..3])
    ensures EatAll(Hunting(0), garbage + BigEndian(cmd)) == Sizing(cmd, 0, 4)
  {
    hide Shift, BigEndian;
    var m := BigEndian(cmd);
    NoMagicPrefix(0, garbage, m[..3]);
    SkipGarbage(0, garbage);
    var c := EatAll(Hunting(0), garbage).cmd;
    HuntedWord(0, garbage, m[..3]);
    EatApart(Hunting(0), garbage, m);
    FourBytes(Hunting(c), m);
    WordShifted(c, cmd);
    ThreeQuiet(c, m[..3]);
  }

  lemma ThreeQuiet(c: nat, t: seq<byte>)
    requires |t| == 3 && NoMagic(c, t)
    ensures !Magic(Shift(c, t[0])) && !Magic(Shift(Shift(c, t[0]), t[1]))
    ensures !Magic(Shift(Shift(Shift(c, t[0]), t[1]), t[2]))
  {
    hide Shift;
    assert t[1..][1..] == t[2..];
    assert NoMagic(Shift(Shift(c, t[0]), t[1]), t[2..]);
  }

  lemma {:induction false} NoMagicPrefix(c: nat, s: seq<byte>, t: seq<byte>)
    requires NoMagic(c, s + t)
    ensures NoMagic(c, s)
    decreases |s|
  {
    if s != [] {
      assert (s + t)[1..] == s[1..] + t;
      NoMagicPrefix(Shift(c, s[0]), s[1..], t);
    }
  }

  /** The rest of the garbage stays free of magic words when hunting resumes. */
  lemma {:induction false} HuntedWord(c: nat, s: seq<byte>, t: seq<byte>)
    requires NoMagic(c, s + t)
    ensures EatAll(Hunting(c), s).Hunting? && NoMagic(EatAll(Hunting(c), s).cmd, t)
    decreases |s|
  {
    if s == [] {
      assert s + t == t;
    } else {
      assert (s + t)[1..] == s[1..] + t;
      HuntedWord(Shift(c, s[0]), s[1..], t);
      assert [s[0]] + s[1..] == s;
      EatApart(Hunting(c), [s[0]], s[1..]);
      EatOne(Hunting(c), s[0]);
    }
  }

  lemma FourBytes(s: Parsed, b: seq<byte>)
    requires |b| == 4
    ensures EatAll(s, b) == Eat(Eat(Eat(Eat(s, b[0]), b[1]), b[2]), b[3])
  {
    hide Eat;
    assert b[..3][..2] == b[..2] && b[..2][..1] == b[..1] && b[..1] == [b[0]];
    EatOne(s, b[0]);
    assert EatAll(s, b[..2]) == Eat(EatAll(s, b[..1]), b[1]);
    assert EatAll(s, b[..3]) == Eat(EatAll(s, b[..2]), b[2]);
    assert EatAll(s, b) == Eat(EatAll(s, b[..3]), b[3]);
  }

  lemma SizeRead(cmd: nat, len: nat)
    requires len <= BUFFER_MAX
    ensures EatAll(Sizing(cmd, 0, 4), BigEndian(len)) == Filling(cmd, len, [])
  {
    hide BigEndian, Shift;
    FourBytes(Sizing(cmd, 0, 4), BigEndian(len));
    WordShifted(0, len);
  }

  /** A parse that only lacks bytes is neither rejected nor complete before its last byte. */
  lemma NotDoneEarly(s: Parsed, eaten: seq<byte>, rest: seq<byte>, cmd: nat, payload: seq<byte>)
    requires EatAll(s, eaten + rest) == Filling(cmd, |payload|, payload)
    ensures !EatAll(s, eaten).Rejected?
    ensures Full(EatAll(s, eaten)) ==> rest == [] && EatAll(s, eaten) == Filling(cmd, |payload|, payload)
  {
    EatApart(s, eaten, rest);
    var t := EatAll(s, eaten);
    if t.Rejected? {
      StaysRejected(rest);
    }
    if t.Filling? {
      EatPayload(t.cmd, t.len, t.got, rest);
    }
  }

  lemma {:induction false} StaysRejected(b: seq<byte>)
    ensures EatAll(Rejected, b) == Rejected
    decreases |b|
  {
    if b != [] {
      StaysRejected(b[..|b| - 1]);
    }
  }

  /** All of the payload is there. */
  predicate Full(s: Parsed) { s.Filling? && |s.got| == s.len }

  // ----- the loader -----

  function Get(mem: map<nat, byte>, a: nat): byte { if a in mem then mem[a] else 0 }

  function Load(mem: map<nat, byte>, a: nat, n: nat): (s: seq<byte>)
    ensures |s| == n
  {
    if n == 0 then [] else Load(mem, a, n - 1) + [Get(mem, a + n - 1)]
  }

  lemma {:induction false} LoadFrame(mem: map<nat, byte>, p: nat, b: byte, a: nat, n: nat)
    requires a + n <= p
    ensures Load(mem[p := b], a, n) == Load(mem, a, n)
  {
    if n > 0 {
      LoadFrame(mem, p, b, a, n - 1);
    }
  }

  datatype Request = Jump(vector: nat) | Boot(address: nat, len: nat)

  /** The image in low memory starts with a loader header followed by an ELF header. */
  predicate ArmImage(mem: map<nat, byte>) {
    var hdr, loader := Value(Load(mem, 0, 4)), Value(Load(mem, 4, 4));
    hdr == HEADER_SIZE && Load(mem, (hdr + loader) % WORD, 7) == [0x7F, 0x45, 0x4C, 0x46, 1, 2, 1]
  }

  /** What the handler of a complete message asks for. */
  function RequestsFor(cmd: nat, len: nat, mem: map<nat, byte>): (r: seq<Request>) {
    if cmd == BIN_PPC then [Boot(PPC_BASE, len)]
    else if ArmImage(mem) then [Jump(HEADER_SIZE)]
    else []
  }

  /** The same byte by byte: a header of 16 bytes, and 16 + `loader` bytes in a 32-bit big-endian ELF file. */
  predicate Bootable(mem: map<nat, byte>) {
    var loader := (Get(mem, 4) as int) * 0x100_0000 + (Get(mem, 5) as int) * 0x1_0000
                  + (Get(mem, 6) as int) * 0x100 + (Get(mem, 7) as int);
    var elf := (16 + loader) % 0x1_0000_0000;
    && Get(mem, 0) == 0 && Get(mem, 1) == 0 && Get(mem, 2) == 0 && Get(mem, 3) == 16
    && Get(mem, elf) == 0x7F && Get(mem, elf + 1) == 'E' as int && Get(mem, elf + 2) == 'L' as int
    && Get(mem, elf + 3) == 'F' as int && Get(mem, elf + 4) == 1 && Get(mem, elf + 5) == 2 && Get(mem, elf + 6) == 1
  }

  lemma {:induction false} LoadAt(mem: map<nat, byte>, a: nat, n: nat, i: nat)
    requires i < n
    ensures Load(mem, a, n)[i] == Get(mem, a + i)
    decreases n
  {
    if i < n - 1 {
      LoadAt(mem, a, n - 1, i);
    }
  }

  lemma ArmImageBytes(mem: map<nat, byte>)
    ensures ArmImage(mem) <==> Bootable(mem)
  {
    hide Load, Get;
    WordAt(mem, 0);
    WordAt(mem, 4);
    var elf := (16 + Value(Load(mem, 4, 4))) % WORD;
    var head: seq<byte> := [0x7F, 0x45, 0x4C, 0x46, 1, 2, 1];
    forall i | 0 <= i < 7 ensures Load(mem, elf, 7)[i] == Get(mem, elf + i) {
      LoadAt(mem, elf, 7, i);
    }
    var s := Load(mem, elf, 7);
    assert s[0] == Get(mem, elf) && s[1] == Get(mem, elf + 1) && s[2] == Get(mem, elf + 2) && s[3] == Get(mem, elf + 3);
    assert s[4] == Get(mem, elf + 4) && s[5] == Get(mem, elf + 5) && s[6] == Get(mem, elf + 6);
    assert s == head <==>
      s[0] == 0x7F && s[1] == 0x45 && s[2] == 0x4C && s[3] == 0x46 && s[4] == 1 && s[5] == 2 && s[6] == 1;
  }

  lemma WordAt(mem: map<nat, byte>, a: nat)
    ensures Value(Load(mem, a, 4)) ==
            (Get(mem, a) as int) * 0x100_0000 + (Get(mem, a + 1) as int) * 0x1_0000
            + (Get(mem, a + 2) as int) * 0x100 + (Get(mem, a + 3) as int)
  {
    hide Load, Get;
    LoadAt(mem, a, 4, 0);
    LoadAt(mem, a, 4, 1);
    LoadAt(mem, a, 4, 2);
    LoadAt(mem, a, 4, 3);
  }

  /** Which requests a message makes once its payload is in place, and where that place is. */
  lemma HandledMeans(cmd: nat, payload: seq<byte>, mem: map<nat, byte>)
    requires Magic(cmd) && Load(mem, BaseFor(cmd), |payload|) == payload
    ensures cmd == 0x4250_5043 ==>
              && RequestsFor(cmd, |payload|, mem) == [Boot(0x1010_0000, |payload|)]
              && forall i :: 0 <= i < |payload| ==> Get(mem, 0x1010_0000 + i) == payload[i]
    ensures cmd == 0x4241_524D ==>
              && RequestsFor(cmd, |payload|, mem) == (if Bootable(mem) then [Jump(16)] else [])
              && forall i :: 0 <= i < |payload| ==> Get(mem, i) == payload[i]
  {
    hide Load, Get, Bootable, ArmImage;
    ArmImageBytes(mem);
    forall i | 0 <= i < |payload| ensures Get(mem, BaseFor(cmd) + i) == payload[i] {
      LoadAt(mem, BaseFor(cmd), |payload|, i);
    }
  }

  datatype State = None | ReceiveSize | ReceiveBuffer

  class Loader {
    const found: bool
    var state: State
    var cmd: nat
    var startTime: nat
    var left: nat
    var len: nat
    var ptr: nat
    var memory: map<nat, byte>

    /** Bytes that have arrived at the device. */
    var input: seq<byte>

    /** Slow requests enqueued so far. */
    var requests: seq<Request>

    ghost predicate Valid()
      reads `state, `cmd, `startTime, `left, `len, `ptr
    {
      match state
      case None => startTime == 0
      case ReceiveSize => Magic(cmd) && 1 <= left <= 4 && ptr == BaseFor(cmd)
      case ReceiveBuffer => Magic(cmd) && len <= BUFFER_MAX && left <= len && ptr == BaseFor(cmd) + (len - left)
    }

    /** What the fields and the memory say has been understood. */
    ghost function Abs(): (s: Parsed)
      requires Valid()
      reads `state, `cmd, `startTime, `left, `len, `ptr, `memory
    {
      match state
      case None => Hunting(cmd)
      case ReceiveSize => Sizing(cmd, len, left)
      case ReceiveBuffer => Filling(cmd, len, Load(memory, BaseFor(cmd), len - left))
    }

    predicate TimedOut(now: nat)
      reads `startTime
    {
      startTime != 0 && now > (startTime + ALARM) % WORD
    }

    constructor (found: bool, memory: map<nat, byte>)
      ensures Valid() && Abs() == Hunting(0) && this.found == found && input == [] && requests == []
      ensures startTime == 0
    {
      this.found, this.memory := found, memory;
      state, cmd, startTime, left, len, ptr, input, requests := None, 0, 0, 0, 0, 0, [], [];
    }

    /** `_gecko_recvbyte`: the next byte, or 0 when there is none or the device will not say. */
    method Receive() returns (got: bool, b: byte)
      modifies `input
      ensures got ==> old(input) == [b] + input
      ensures !got ==> input == old(input) && b == 0
    {
      var willing: bool := *;
      if input != [] && willing {
        got, b, input := true, input[0], input[1..];
      } else {
        got, b := false, 0;
      }
    }

    /** `gecko_flush`. */
    method Flush()
      modifies `input
      ensures |input| <= |old(input)| && input == old(input)[|old(input)| - |input|..]
    {
      var got := true;
      while got
        invariant |input| <= |old(input)| && input == old(input)[|old(input)| - |input|..]
        decreases |input|, got
      {
        var b;
        got, b := Receive();
      }
    }

    /** The end of `gecko_process`. */
    method Cleanup()
      modifies `input, `cmd, `startTime, `state
      ensures Valid() && Abs() == Hunting(0) && startTime == 0
      ensures |input| <= |old(input)| && input == old(input)[|old(input)| - |input|..]
    {
      Flush();
      cmd, startTime, state := 0, 0, None;
    }

    /** `gecko_process`, looking for a magic word. */
    method Hunt(now: nat) returns (ghost k: nat)
      requires Valid() && state == None
      modifies `state, `cmd, `startTime, `left, `len, `ptr, `input
      ensures k <= |old(input)| && input == old(input)[k..]
      ensures Valid() && Abs() == EatAll(old(Abs()), old(input)[..k])
      ensures startTime == if state == None then 0 else now
    {
      var ready: bool := *;
      var got, b := false, 0;
      if ready {
        got, b := Receive();
      }
      k := if got then 1 else 0;
      if got {
        EatOne(Abs(), b);
        assert old(input)[..1] == [b];
        cmd := Shift(cmd, b);
        if Magic(cmd) {
          state, len, left, ptr, startTime := ReceiveSize, 0, 4, BaseFor(cmd), now;
        }
      }
    }

    /** `gecko_process`, reading the length; a length over the limit is refused. */
    method ReadSize() returns (ghost k: nat)
      requires Valid() && state == ReceiveSize
      modifies `state, `cmd, `startTime, `left, `len, `input
      ensures Valid() && k <= |old(input)|
      ensures var s := EatAll(old(Abs()), old(input)[..k]);
              if s == Rejected then Abs() == Hunting(0) else Abs() == s && input == old(input)[k..]
      ensures state != None ==> startTime == old(startTime)
    {
      var ready: bool := *;
      var got, b := false, 0;
      if ready {
        got, b := Receive();
      }
      k := if got then 1 else 0;
      if got {
        EatOne(Abs(), b);
        assert old(input)[..1] == [b];
        len := Shift(len, b);
        left := left - 1;
        if left == 0 {
          if len > BUFFER_MAX {
            Cleanup();
            return;
          }
          state, left := ReceiveBuffer, len;
        }
      }
    }

    /** `gecko_process`, filling the buffer as far as bytes are there. */
    method Fill() returns (ghost k: nat)
      requires Valid() && state == ReceiveBuffer
      modifies `left, `ptr, `memory, `input
      ensures Valid() && k <= |old(input)| && input == old(input)[k..]
      ensures Abs() == EatAll(old(Abs()), old(input)[..k])
      ensures forall a :: 0 <= a && !(BaseFor(cmd) <= a < BaseFor(cmd) + len) ==> Get(memory, a) == Get(old(memory), a)
    {
      hide EatAll, Load;
      k := 0;
      ghost var start := Abs();
      NothingEaten(start, input);
      while left > 0
        invariant Valid() && k <= |old(input)| && input == old(input)[k..]
        invariant Abs() == EatAll(start, old(input)[..k])
        invariant forall a :: 0 <= a && !(BaseFor(cmd) <= a < BaseFor(cmd) + len) ==>
                    Get(memory, a) == Get(old(memory), a)
        decreases left
      {
        ghost var s := Abs();
        var got, b := FillOne();
        if !got {
          return;
        }
        EatNext(start, old(input), k, b);
        k := k + 1;
      }
    }

    /** `gecko_process`: one turn of the receive loop. */
    method FillOne() returns (got: bool, b: byte)
      requires Valid() && state == ReceiveBuffer && left > 0
      modifies `left, `ptr, `memory, `input
      ensures Valid()
      ensures if got then old(input) == [b] + input && left < old(left) && Abs() == Eat(old(Abs()), b)
              else input == old(input) && Abs() == old(Abs())
      ensures forall a :: 0 <= a && !(BaseFor(cmd) <= a < BaseFor(cmd) + len) ==> Get(memory, a) == Get(old(memory), a)
    {
      hide Load;
      var ready: bool := *;
      if !ready {
        return false, 0;
      }
      got, b := Receive();
      Store(b);
      if got {
        ptr := ptr + 1;
        left := left - 1;
      }
    }

    /** `_gecko_recvbyte` stores what it received, or 0, at the receive pointer. */
    method Store(b: byte)
      requires Valid() && state == ReceiveBuffer && left > 0
      modifies `memory
      ensures Valid() && Abs() == old(Abs())
      ensures Load(memory, BaseFor(cmd), len - left + 1) == Load(old(memory), BaseFor(cmd), len - left) + [b]
      ensures forall a :: 0 <= a && a != ptr ==> Get(memory, a) == Get(old(memory), a)
    {
      LoadFrame(memory, ptr, b, BaseFor(cmd), len - left);
      memory := memory[ptr := b];
    }

    /**
     * `gecko_process`: `k` bytes are taken from the device and understood as the one-shot parser
     * would. A complete message is handled once all of it is in memory; a refused one is dropped.
     */
    method Process(now: nat) returns (ghost k: nat)
      requires Valid()
      modifies this
      ensures Valid()
      ensures !found ==> k == 0 && Abs() == old(Abs()) && input == old(input) && requests == old(requests)
      ensures startTime ==
              if state == None then 0 else if found && old(state) == None then now else old(startTime)
      ensures found && old(startTime) != 0 && now > (old(startTime) + 5000 * 1898) % 0x1_0000_0000 ==>
                Abs() == Hunting(0) && requests == old(requests)
      ensures found && !(old(startTime) != 0 && now > (old(startTime) + 5000 * 1898) % 0x1_0000_0000) ==>
                && k <= |old(input)|
                && var s := EatAll(old(Abs()), old(input)[..k]);
                   if s == Rejected then Abs() == Hunting(0) && requests == old(requests)
                   else if old(state) == ReceiveBuffer && Full(s) then
                     && Abs() == Hunting(0) && Load(memory, BaseFor(s.cmd), s.len) == s.got
                     && requests == old(requests) + RequestsFor(s.cmd, s.len, memory)
                     && |input| <= |old(input)| - k && input == old(input)[|old(input)| - |input|..]
                   else Abs() == s && input == old(input)[k..] && requests == old(requests)
      ensures old(state) != ReceiveBuffer ==> memory == old(memory)
      ensures forall a :: 0 <= a && !(BaseFor(old(cmd)) <= a < BaseFor(old(cmd)) + old(len)) ==>
                Get(memory, a) == Get(old(memory), a)
    {
      k := 0;
      if !found {
        return;
      }
      if TimedOut(now) {
        Cleanup();
        return;
      }
      match state {
        case None =>
          k := Hunt(now);
        case ReceiveSize =>
          k := ReadSize();
        case ReceiveBuffer =>
          k := FillOn();
      }
    }

    /** `gecko_process`, filling the buffer: a message that is complete now is handled. */
    method FillOn() returns (ghost k: nat)
      requires Valid() && state == ReceiveBuffer
      modifies `left, `ptr, `memory, `requests, `input, `cmd, `startTime, `state
      ensures Valid() && k <= |old(input)|
      ensures var s := EatAll(old(Abs()), old(input)[..k]);
              && s.Filling?
              && if Full(s) then
                   && Abs() == Hunting(0) && startTime == 0 && state == None
                   && Load(memory, BaseFor(s.cmd), s.len) == s.got
                   && requests == old(requests) + RequestsFor(s.cmd, s.len, memory)
                   && |input| <= |old(input)| - k && input == old(input)[|old(input)| - |input|..]
                 else
                   && Abs() == s && input == old(input)[k..] && requests == old(requests)
                   && state == ReceiveBuffer && startTime == old(startTime)
      ensures forall a :: 0 <= a && !(BaseFor(old(cmd)) <= a < BaseFor(old(cmd)) + old(len)) ==>
                Get(memory, a) == Get(old(memory), a)
    {
      hide EatAll, Load, RequestsFor;
      k := Fill();
      if left == 0 {
        Handle();
      }
    }

    /** `gecko_process`: the message is complete. */
    method Handle()
      requires Valid() && state == ReceiveBuffer && left == 0
      modifies `requests, `input, `cmd, `startTime, `state
      ensures Valid() && Abs() == Hunting(0)
      ensures requests == old(requests) + RequestsFor(old(cmd), len, memory)
      ensures |input| <= |old(input)| && input == old(input)[|old(input)| - |input|..]
    {
      if cmd == BIN_PPC {
        requests := requests + [Boot(PPC_BASE, len)];
      } else if ArmImage(memory) {
        requests := requests + [Jump(HEADER_SIZE)];
      }
      Cleanup();
    }
  }

  /** What a run has come to: `e` bytes are understood, or the message has been handled. */
  ghost predicate Progress(g: Loader, before: seq<Request>, stream: seq<byte>, cmd: nat, payload: seq<byte>,
                           handled: bool, e: nat, d: nat)
    requires e <= d <= |stream|
    reads g
  {
    && g.Valid()
    && if handled then
         && g.requests == before + RequestsFor(cmd, |payload|, g.memory)
         && Load(g.memory, BaseFor(cmd), |payload|) == payload && e == |stream|
         && g.Abs() == Hunting(0) && g.input == []
       else
         && g.requests == before
         && g.Abs() == EatAll(Hunting(0), stream[..e]) && g.input == stream[e..d]
  }

  /**
   * However a stream of garbage, magic word, length and image is cut into pieces and however the calls
   * fall between them, short of a timeout: nothing is requested before the image is complete; then what
   * is requested is what its kind asks for, once, with the image in place; and once all bytes have been
   * taken this has happened or the next call does it. Calls after that change nothing.
   */
  method FeedImage(g: Loader, garbage: seq<byte>, cmd: nat, payload: seq<byte>)
    returns (delivered: nat, ghost eaten: nat, ghost handled: bool)
    requires g.found && g.Valid() && g.Abs() == Hunting(0) && g.input == [] && |payload| <= BUFFER_MAX
    requires Magic(cmd) && NoMagic(0, garbage + BigEndian(cmd)[..3])
    modifies g
    ensures var stream := garbage + BigEndian(cmd) + BigEndian(|payload|) + payload;
            && eaten <= delivered <= |stream|
            && Progress(g, old(g.requests), stream, cmd, payload, handled, eaten, delivered)
            && (!handled && eaten == |stream| ==> g.Abs() == Filling(cmd, |payload|, payload))
    ensures !handled ==> g.requests == old(g.requests)
    ensures handled && cmd == 0x4250_5043 ==>
              && g.requests == old(g.requests) + [Boot(0x1010_0000, |payload|)]
              && forall i :: 0 <= i < |payload| ==> Get(g.memory, 0x1010_0000 + i) == payload[i]
    ensures handled && cmd == 0x4241_524D ==>
              && g.requests == old(g.requests) + (if Bootable(g.memory) then [Jump(16)] else [])
              && forall i :: 0 <= i < |payload| ==> Get(g.memory, i) == payload[i]
  {
    hide EatAll, BigEndian, Bootable, Get, Load, RequestsFor;
    var stream := garbage + BigEndian(cmd) + BigEndian(|payload|) + payload;
    Framing(garbage, cmd, payload);
    delivered, eaten, handled := Feed(g, stream, cmd, payload);
    Understood(g, old(g.requests), stream, cmd, payload, handled, eaten, delivered);
    if handled {
      HandledMeans(cmd, payload, g.memory);
    }
  }

  lemma Understood(g: Loader, before: seq<Request>, stream: seq<byte>, cmd: nat, payload: seq<byte>,
                   handled: bool, e: nat, d: nat)
    requires e <= d <= |stream| && Progress(g, before, stream, cmd, payload, handled, e, d)
    ensures g.Valid()
    ensures !handled && e == |stream| ==> g.Abs() == EatAll(Hunting(0), stream)
  {
    assert stream[..|stream|] == stream;
  }

  /** Any number of turns, each a delivery and perhaps a call. */
  method Feed(g: Loader, stream: seq<byte>, cmd: nat, payload: seq<byte>)
    returns (delivered: nat, ghost eaten: nat, ghost handled: bool)
    requires g.found && g.Valid() && g.Abs() == Hunting(0) && g.input == []
    requires EatAll(Hunting(0), stream) == Filling(cmd, |payload|, payload)
    modifies g
    ensures eaten <= delivered <= |stream|
    ensures Progress(g, old(g.requests), stream, cmd, payload, handled, eaten, delivered)
  {
    delivered, eaten, handled := 0, 0, false;
    var turns: nat := *;
    while turns > 0
      invariant eaten <= delivered <= |stream|
      invariant Progress(g, old(g.requests), stream, cmd, payload, handled, eaten, delivered)
    {
      delivered := Deliver(g, stream, delivered);
      var now: nat := *;
      if !g.TimedOut(now) {
        eaten, handled := Call(g, now, old(g.requests), stream, cmd, payload, handled, eaten, delivered);
      }
      turns := turns - 1;
    }
  }

  /** Some more bytes arrive. */
  method Deliver(g: Loader, stream: seq<byte>, delivered: nat) returns (d: nat)
    requires delivered <= |stream|
    modifies g`input
    ensures delivered <= d <= |stream| && g.input == old(g.input) + stream[delivered..d]
  {
    var more: int := *;
    d := if 0 <= more <= |stream| - delivered then delivered + more else |stream|;
    g.input := g.input + stream[delivered..d];
  }

  /** One call within the time limit; after the message was handled it changes nothing. */
  method Call(g: Loader, now: nat, ghost before: seq<Request>, ghost stream: seq<byte>, ghost cmd: nat,
              ghost payload: seq<byte>, ghost handled: bool, ghost eaten: nat, ghost delivered: nat)
    returns (ghost e: nat, ghost over: bool)
    requires g.found && eaten <= delivered <= |stream|
    requires Progress(g, before, stream, cmd, payload, handled, eaten, delivered)
    requires !g.TimedOut(now) && EatAll(Hunting(0), stream) == Filling(cmd, |payload|, payload)
    modifies g
    ensures e <= delivered && Progress(g, before, stream, cmd, payload, over, e, delivered)
    ensures handled ==> over && g.requests == old(g.requests) && g.memory == old(g.memory)
  {
    hide EatAll, Load, Loader.Valid;
    ghost var k := g.Process(now);
    e, over := eaten, handled;
    if !handled {
      e := eaten + k;
      over := old(g.state) == ReceiveBuffer && Full(EatAll(Hunting(0), stream[..e]));
      TakenOn(stream, eaten, delivered, k, cmd, payload);
    } else {
      NothingEaten(Hunting(0), old(g.input));
      NothingThere(old(g.input), k);
    }
  }

  /** Bytes `eaten`, ..., `eaten + k - 1` of the stream join those understood before. */
  lemma TakenOn(stream: seq<byte>, eaten: nat, delivered: nat, k: nat, cmd: nat, payload: seq<byte>)
    requires eaten + k <= delivered <= |stream| && EatAll(Hunting(0), stream) == Filling(cmd, |payload|, payload)
    ensures stream[eaten..delivered][k..] == stream[eaten + k..delivered]
    ensures var s := EatAll(Hunting(0), stream[..eaten + k]);
            && EatAll(EatAll(Hunting(0), stream[..eaten]), stream[eaten..delivered][..k]) == s
            && !s.Rejected?
            && (Full(s) ==> eaten + k == |stream| && s == Filling(cmd, |payload|, payload))
  {
    hide EatAll;
    CutAnew(stream, eaten, k, delivered);
    var s, t, u := stream[..eaten], stream[eaten..delivered][..k], stream[..eaten + k];
    EatApart(Hunting(0), s, t);
    NotDoneEarly(Hunting(0), u, stream[eaten + k..], cmd, payload);
  }

  lemma CutAnew(stream: seq<byte>, a: nat, k: nat, d: nat)
    requires a + k <= d <= |stream|
    ensures stream[..a] + stream[a..d][..k] == stream[..a + k]
    ensures stream[a..d][k..] == stream[a + k..d] && stream[..a + k] + stream[a + k..] == stream
  {
  }

  lemma NothingThere(input: seq<byte>, k: nat)
    requires input == [] && k <= |input|
    ensures input[..k] == input[..0] && input[k..] == []
  {
  }
}
