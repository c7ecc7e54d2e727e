/** Bit fields of an SD card's R2 response, and the capacity decoded from its CSD register. */
module Csd {
  import opened Bytes
  import L = Layout

  const WORD := 0x1_0000_0000

  function Pow2(k: nat): (p: nat)
    ensures 1 <= p
  {
    if k == 0 then 1 else 2 * Pow2(k - 1)
  }

  function Over(a: nat, b: nat): (q: nat)
    requires 1 <= b
  {
    a / b
  }

  /** A byte shifted right. */
  function Shifted(x: byte, k: nat): (y: nat) { Over(x, Pow2(k)) }

  /** Bit `i` of a little-endian byte string. */
  function Bit(s: seq<byte>, i: nat): (b: nat)
    requires i < 8 * |s|
    ensures b < 2
  {
    Shifted(s[i / 8], i % 8) % 2
  }

  /** The number whose bits are bits `start`, ..., `start + len - 1` of `s`, lowest first. */
  function Slice(s: seq<byte>, start: nat, len: nat): (v: nat)
    requires start + len <= 8 * |s|
    decreases len
  {
    if len == 0 then 0 else Bit(s, start) + 2 * Slice(s, start + 1, len - 1)
  }

  lemma {:induction false} SliceBound(s: seq<byte>, start: nat, len: nat)
    requires start + len <= 8 * |s|
    ensures Slice(s, start, len) < Pow2(len)
    decreases len
  {
    if len > 0 {
      SliceBound(s, start + 1, len - 1);
    }
  }

  /** A slice falls apart into a lower and an upper one. */
  lemma {:induction false} SliceSplit(s: seq<byte>, start: nat, m: nat, n: nat)
    requires start + m + n <= 8 * |s|
    ensures Slice(s, start, m + n) == Slice(s, start, m) + L.Mul(Slice(s, start + m, n), Pow2(m))
    decreases m
  {
    hide Slice, Bit, Pow2, L.Mul;
    var x := Slice(s, start + m, n);
    if m == 0 {
      NoSlice(s, start, x);
    } else {
      SliceFirst(s, start, m + n);
      SliceFirst(s, start, m);
      SliceSplit(s, start + 1, m - 1, n);
      assert start + 1 + (m - 1) == start + m;
      MulDouble(x, m);
    }
  }

  lemma NoSlice(s: seq<byte>, start: nat, x: nat)
    requires start <= 8 * |s|
    ensures Slice(s, start, 0) == 0 && L.Mul(x, Pow2(0)) == x
  {
    L.MulIsProduct(x, 1);
  }

  lemma MulDouble(x: nat, m: nat)
    requires 1 <= m
    ensures L.Mul(x, Pow2(m)) == 2 * L.Mul(x, Pow2(m - 1))
  {
    assert Pow2(m) == Pow2(m - 1) * 2;
    hide Pow2;
    L.MulScale(x, Pow2(m - 1), 2);
  }

  lemma SliceFirst(s: seq<byte>, start: nat, len: nat)
    requires 0 < len && start + len <= 8 * |s|
    ensures Slice(s, start, len) == Bit(s, start) + 2 * Slice(s, start + 1, len - 1)
  {
  }

  /** The low bits of a slice. */
  lemma SliceMod(s: seq<byte>, start: nat, m: nat, n: nat)
    requires start + m + n <= 8 * |s|
    ensures Slice(s, start, m + n) % Pow2(m) == Slice(s, start, m)
  {
    var x := Slice(s, start + m, n);
    SliceSplit(s, start, m, n);
    SliceBound(s, start, m);
    L.MulIsProduct(x, Pow2(m));
    L.DivUnique(Slice(s, start, m + n), x, Slice(s, start, m), Pow2(m));
  }

  lemma Powers()
    ensures Pow2(0) == 1 && Pow2(1) == 2 && Pow2(2) == 4 && Pow2(3) == 8 && Pow2(4) == 16
    ensures Pow2(5) == 32 && Pow2(6) == 64 && Pow2(7) == 128 && Pow2(8) == 256
  {
    assert Pow2(4) == 16;
  }

  /** What is left of a byte after shifting it right is the slice up to its end. */
  lemma {:induction false} ByteTail(s: seq<byte>, i: nat, b: nat)
    requires i < |s| && b <= 8
    ensures Slice(s, 8 * i + b, 8 - b) == Shifted(s[i], b)
    decreases 8 - b
  {
    if b == 8 {
      Powers();
    } else {
      hide Bit, Slice, Pow2, Shifted;
      SliceFirst(s, 8 * i + b, 8 - b);
      BitOfByte(s, i, b);
      assert 8 * i + b + 1 == 8 * i + (b + 1) && 8 - b - 1 == 8 - (b + 1);
      ByteTail(s, i, b + 1);
      HalveByte(s[i], b);
    }
  }

  lemma BitOfByte(s: seq<byte>, i: nat, b: nat)
    requires i < |s| && b < 8
    ensures Bit(s, 8 * i + b) == Shifted(s[i], b) % 2
  {
    L.DivUnique(8 * i + b, i, b, 8);
  }

  lemma HalveByte(x: byte, b: nat)
    requires b < 8
    ensures Shifted(x, b) == Shifted(x, b) % 2 + 2 * Shifted(x, b + 1)
  {
    Powers();
  }

  /** Cutting to 32 bits first does not matter to fewer bits. */
  lemma CutTwice(x: nat, k: nat)
    requires k <= 32
    ensures Pow2(32) == WORD && x % WORD % Pow2(k) == x % Pow2(k)
  {
    Pow2Add(k, 32 - k);
    Pow2At32();
    L.MulIsProduct(Pow2(32 - k), Pow2(k));
    hide Pow2;
    CutMod(x, WORD, Pow2(32 - k), Pow2(k));
  }

  lemma CutMod(x: nat, w: nat, h: nat, d: nat)
    requires w == h * d && 0 < w && 0 < d
    ensures x % w % d == x % d
  {
    CutParts(x, x / w, x % w, x % w / d, x % w % d, w, h, d);
  }

  lemma CutParts(x: nat, q: nat, y: nat, p: nat, z: nat, w: nat, h: nat, d: nat)
    requires x == q * w + y && y == p * d + z && z < d && w == h * d
    ensures x % d == z
  {
    assert q * (h * d) + (p * d + z) == (q * h + p) * d + z;
    L.DivUnique(x, q * h + p, z, d);
  }

  lemma {:induction false} Pow2Add(a: nat, b: nat)
    ensures Pow2(a + b) == L.Mul(Pow2(b), Pow2(a))
    decreases a
  {
    if a == 0 {
      L.MulIsProduct(Pow2(b), 1);
    } else {
      Pow2Add(a - 1, b);
      L.MulScale(Pow2(b), Pow2(a - 1), 2);
    }
  }

  lemma Pow2At32()
    ensures Pow2(32) == WORD
  {
    assert Pow2(8) == 0x100 by { Powers(); }
    assert Pow2(16) == 0x1_0000 by { assert Pow2(12) == 16 * Pow2(8); }
    assert Pow2(24) == 0x100_0000 by { assert Pow2(20) == 16 * Pow2(16); }
    assert Pow2(28) == 16 * Pow2(24);
  }

  // ----- __bitfield -----

  /** `__bitfield`: bits `start`, ..., `start + len - 1` of the response; 0 for an impossible request. */
  method BitField(src: seq<byte>, start: int, len: int) returns (dst: nat)
    requires 0 <= start && 0 <= len <= 32 ==> start + len <= 8 * |src|
    ensures start < 0 || len < 0 || len > 32 ==> dst == 0
    ensures 0 <= start && 0 <= len <= 32 ==> dst == Slice(src, start, len)
    ensures 0 <= start && start % 8 == 0 && len == 8 ==> dst == src[start / 8]
  {
    if start < 0 || len < 0 || len > 32 {
      return 0;
    }
    hide Slice, Pow2;
    ghost var have;
    dst, have := BitLoop(src, start, len);
    MaskedSlice(src, start, len, have);
    dst := dst % Pow2(len);
    if start % 8 == 0 && len == 8 {
      ByteHead(src, start / 8, 8);
    }
  }

  /** The mask keeps the bits asked for. */
  lemma MaskedSlice(src: seq<byte>, start: nat, len: nat, have: nat)
    requires len <= have && start + have <= 8 * |src| && len <= 32
    ensures Slice(src, start, have) % WORD % Pow2(len) == Slice(src, start, len)
  {
    hide Slice, Pow2;
    CutTwice(Slice(src, start, have), len);
    SliceMod(src, start, len, have - len);
  }

  /** `__bitfield`: the loop, byte by byte; the last byte may bring `have - len` bits too many. */
  method BitLoop(src: seq<byte>, start: nat, len: nat) returns (dst: nat, ghost have: nat)
    requires len <= 32 && start + len <= 8 * |src|
    ensures len <= have && start + have <= 8 * |src| && dst == Slice(src, start, have) % WORD
  {
    hide Slice, Pow2, Join, Shifted;
    dst, have := 0, 0;
    var shift, at, left := 0, start, len;
    StartSlice(src, start);
    while left > 0
      invariant 0 <= left <= len && shift == len - left && at == start + shift
      invariant shift <= have && start + have <= 8 * |src| && (left > 0 ==> have == shift)
      invariant dst == Slice(src, start, have) % WORD
    {
      NextChunk(src, start, have);
      var bs := at % 8;
      var bc := 8 - bs;
      have := have + bc;
      if bc > left {
        bc := left;
      }
      dst := Join(dst, Shifted(src[at / 8], bs), shift);
      shift, at, left := shift + bc, at + bc, left - bc;
    }
  }

  /** The rest of the current byte joins the slice read so far. */
  lemma NextChunk(src: seq<byte>, start: nat, have: nat)
    requires have <= 31 && start + have < 8 * |src|
    ensures var at := start + have;
            && at + (8 - at % 8) <= 8 * |src|
            && Join(Slice(src, start, have) % WORD, Shifted(src[at / 8], at % 8), have) ==
               Slice(src, start, have + (8 - at % 8)) % WORD
  {
    hide Slice, Pow2, Join, Shifted;
    var at := start + have;
    ChunkAt(src, start, have, at / 8, at % 8);
  }

  lemma ChunkAt(src: seq<byte>, start: nat, have: nat, i: nat, bs: nat)
    requires have <= 31 && i < |src| && bs < 8 && start + have == 8 * i + bs
    ensures start + have + (8 - bs) <= 8 * |src|
    ensures Join(Slice(src, start, have) % WORD, Shifted(src[i], bs), have) ==
            Slice(src, start, have + (8 - bs)) % WORD
  {
    hide Slice, Pow2, L.Mul, Shifted;
    ByteTail(src, i, bs);
    SliceSplit(src, start, have, 8 - bs);
    SliceCut(src, start, have);
  }

  /** `dst | (x << shift)` in 32 bits, where `dst` has no bit at `shift` or above. */
  function Join(dst: nat, x: nat, shift: nat): (r: nat) {
    (dst + L.Mul(x, Pow2(shift))) % WORD
  }

  lemma StartSlice(s: seq<byte>, start: nat)
    requires start <= 8 * |s|
    ensures Slice(s, start, 0) == 0
  {
  }

  /** Fewer than 32 bits need no cutting. */
  lemma SliceCut(s: seq<byte>, start: nat, len: nat)
    requires start + len <= 8 * |s| && len <= 31
    ensures Slice(s, start, len) < WORD
  {
    SliceBound(s, start, len);
    Pow2At32();
    Pow2Add(len, 32 - len);
    L.MulIsProduct(Pow2(32 - len), Pow2(len));
  }

  // ----- the CSD register -----

  /**
   * The fields of a version 1 register as `sdmmc_needs_discover` picks them out byte by byte. Bits of the
   * register are numbered from 8 bits before the response: READ_BL_LEN is 80-83, C_SIZE 62-73, C_SIZE_MULT 47-49.
   */
  method DecodeV1(resp: seq<byte>) returns (readBlLen: nat, cSize: nat, cSizeMult: nat)
    requires |resp| == 16
    ensures readBlLen == Slice(resp, 80 - 8, 4)
    ensures cSize == Slice(resp, 62 - 8, 12) && cSizeMult == Slice(resp, 47 - 8, 3)
  {
    hide Slice, LowNibble, Join12, Join3;
    readBlLen := LowNibble(resp[9]);
    cSize := Join12(resp[8], resp[7], resp[6]);
    cSizeMult := Join3(resp[5], resp[4]);
    ByteHead(resp, 9, 4);
    ThreeBytes(resp, 6);
    TwoBytes(resp, 4);
  }

  /** `x & 0xF`. */
  function LowNibble(x: byte): nat { (x as int) % 0x10 }

  /** `(x & 3) << 10 | y << 2 | z >> 6`. */
  function Join12(x: byte, y: byte, z: byte): nat { (x as int) % 4 * 0x400 + (y as int) * 4 + (z as int) / 0x40 }

  /** `(x & 3) << 1 | y >> 7`. */
  function Join3(x: byte, y: byte): nat { (x as int) % 4 * 2 + (y as int) / 0x80 }

  /** `x << 16 | y << 8 | z`. */
  function Join24(x: byte, y: byte, z: byte): nat { (x as int) * 0x1_0000 + (y as int) * 0x100 + (z as int) }

  /** The low bits of a byte. */
  lemma ByteHead(s: seq<byte>, i: nat, n: nat)
    requires i < |s| && n <= 8
    ensures Slice(s, 8 * i, n) == (s[i] as int) % Pow2(n)
    ensures n == 4 ==> Slice(s, 8 * i, n) == LowNibble(s[i])
    ensures n == 2 ==> Slice(s, 8 * i, n) == (s[i] as int) % 4
    ensures n == 8 ==> Slice(s, 8 * i, n) == s[i]
  {
    hide Slice;
    Powers();
    ByteTail(s, i, 0);
    SliceMod(s, 8 * i, n, 8 - n);
  }

  lemma TwoBytes(s: seq<byte>, i: nat)
    requires i + 1 < |s|
    ensures Slice(s, 8 * i + 7, 3) == Join3(s[i + 1], s[i])
  {
    hide Slice;
    Powers();
    ByteTail(s, i, 7);
    ByteHead(s, i + 1, 2);
    SliceSplit(s, 8 * i + 7, 1, 2);
    L.MulIsProduct(Slice(s, 8 * (i + 1), 2), 2);
  }

  lemma ThreeBytes(s: seq<byte>, i: nat)
    requires i + 2 < |s|
    ensures Slice(s, 8 * i + 6, 12) == Join12(s[i + 2], s[i + 1], s[i])
  {
    hide Slice;
    Powers();
    ByteTail(s, i, 6);
    ByteHead(s, i + 1, 8);
    ByteHead(s, i + 2, 2);
    SliceSplit(s, 8 * i + 6, 2, 10);
    SliceSplit(s, 8 * (i + 1), 8, 2);
    L.MulIsProduct(Slice(s, 8 * (i + 1), 10), 4);
    L.MulIsProduct(Slice(s, 8 * (i + 2), 2), 256);
  }

  /** The capacity in bytes a version 1 register declares. */
  function CapacityV1(cSize: nat, mult: nat, blLen: nat): nat {
    (cSize + 1) * 4 * Pow2(mult) * Pow2(blLen)
  }

  /** `num_sectors` of a version 1 card, in 32-bit arithmetic. */
  function SectorsV1(cSize: nat, mult: nat, blLen: nat): nat {
    (cSize + 1) * (4 * Pow2(mult)) % WORD * Pow2(blLen) % WORD / 512
  }

  /** The sector count is right exactly when the capacity itself is below 2^32 bytes. */
  lemma NoOverflow(cSize: nat, mult: nat, blLen: nat)
    ensures SectorsV1(cSize, mult, blLen) == CapacityV1(cSize, mult, blLen) / 512
            <==> CapacityV1(cSize, mult, blLen) < WORD
  {
    hide Pow2;
    if CapacityV1(cSize, mult, blLen) < WORD {
      NoCut(cSize + 1, Pow2(mult), Pow2(blLen));
    }
  }

  lemma NoCut(x: nat, p: nat, b: nat)
    requires 1 <= b && x * 4 * p * b < WORD
    ensures x * (4 * p) % WORD * b % WORD == x * 4 * p * b
  {
    var a := x * (4 * p);
    assert a == x * 4 * p;
    Below(a, b);
  }

  lemma Below(a: nat, b: nat)
    requires 1 <= b && a * b < WORD
    ensures a % WORD * b % WORD == a * b
  {
    assert a <= a * b;
  }

  /** `num_sectors` of a version 2 card, in 32-bit arithmetic. */
  function SectorsV2(cSize: nat): nat { (cSize + 1) * 1024 % WORD }

  /**
   * The version 2 size field is 22 bits wide; the code takes 24, which is the same when the top two are
   * 0. The sector count does not depend on those two, and is right unless the field is all ones.
   */
  method DecodeV2(resp: seq<byte>) returns (cSize: nat, sectors: nat)
    requires |resp| == 16
    ensures cSize == Slice(resp, 48 - 8, 24)
    ensures cSize == Slice(resp, 48 - 8, 22) <==> resp[7] < 0x40
    ensures sectors == (Slice(resp, 48 - 8, 22) + 1) * 1024 <==> Slice(resp, 48 - 8, 22) != 0x3F_FFFF
    ensures Slice(resp, 48 - 8, 22) == 0x3F_FFFF ==> sectors == 0
  {
    hide Slice, Join24;
    cSize := Join24(resp[7], resp[6], resp[5]);
    sectors := SectorsV2(cSize);
    V2Bytes(resp);
    V2Sectors(resp);
  }

  lemma V2Sectors(s: seq<byte>)
    requires |s| == 16
    ensures var f := Slice(s, 40, 22);
            && f < 0x40_0000
            && SectorsV2(Slice(s, 40, 24)) == if f == 0x3F_FFFF then 0 else (f + 1) * 1024
  {
    hide Slice;
    Powers();
    Pow2Add(8, 8);
    Pow2Add(16, 6);
    SliceSplit(s, 40, 22, 2);
    SliceBound(s, 40, 22);
    L.MulIsProduct(Slice(s, 62, 2), 0x40_0000);
    CutAway(Slice(s, 40, 22), Slice(s, 62, 2));
  }

  /** The bits above the field are lost in the product. */
  lemma CutAway(f: nat, top: nat)
    requires f < 0x40_0000
    ensures SectorsV2(f + 0x40_0000 * top) == if f == 0x3F_FFFF then 0 else (f + 1) * 1024
  {
    assert (f + 0x40_0000 * top + 1) * 1024 == (f + 1) * 1024 + WORD * top;
  }

  /** A register whose top two bits are set, and one that declares the largest size. */
  lemma V2Fails()
    ensures var s: seq<byte> := [0, 0, 0, 0, 0, 0, 0, 0x40, 0, 0, 0, 0, 0, 0x0E, 0, 0];
            Slice(s, 40, 24) == 0x40_0000 && Slice(s, 40, 22) == 0
    ensures var s: seq<byte> := [0, 0, 0, 0, 0, 0xFF, 0xFF, 0x3F, 0, 0, 0, 0, 0, 0x0E, 0, 0];
            Slice(s, 40, 22) == 0x3F_FFFF && SectorsV2(Slice(s, 40, 24)) == 0
  {
    hide Slice;
    var a: seq<byte> := [0, 0, 0, 0, 0, 0, 0, 0x40, 0, 0, 0, 0, 0, 0x0E, 0, 0];
    var b: seq<byte> := [0, 0, 0, 0, 0, 0xFF, 0xFF, 0x3F, 0, 0, 0, 0, 0, 0x0E, 0, 0];
    V2Bytes(a);
    V2Sectors(a);
    V2Bytes(b);
  }

  lemma V2Bytes(s: seq<byte>)
    requires |s| == 16
    ensures Slice(s, 40, 24) == Join24(s[7], s[6], s[5])
    ensures Slice(s, 40, 22) == Join24(s[7], s[6], s[5]) <==> s[7] < 0x40
  {
    hide Slice, LowNibble;
    Powers();
    ByteHead(s, 5, 8);
    ByteHead(s, 6, 8);
    ByteHead(s, 7, 8);
    ByteHead(s, 7, 6);
    SliceSplit(s, 40, 8, 16);
    SliceSplit(s, 48, 8, 8);
    SliceSplit(s, 40, 8, 14);
    SliceSplit(s, 48, 8, 6);
    L.MulIsProduct(Slice(s, 48, 16), 256);
    L.MulIsProduct(Slice(s, 56, 8), 256);
    L.MulIsProduct(Slice(s, 48, 14), 256);
    L.MulIsProduct(Slice(s, 56, 6), 256);
  }
}
