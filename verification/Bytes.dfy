/** Bytes, sectors and the little-endian accessors of `ff.h`. */
module Bytes {

  type byte = x: int | 0 <= x < 256

  const SECTOR_SIZE := 512

  /** One 512-byte sector (`SS(fs)` is 512 in this configuration). */
  type Sector = s: seq<byte> | |s| == SECTOR_SIZE witness seq(512, _ => 0)

  /** `mem_set(.., 0, ..)` over a whole sector. */
  function Blank(): (s: Sector)
    ensures forall i :: 0 <= i < SECTOR_SIZE ==> s[i] == 0
  {
    seq(SECTOR_SIZE, _ => 0)
  }

  /** `LD_WORD`: the 16-bit value whose low byte comes first. */
  function LdWord(s: seq<byte>, o: nat): (w: nat)
    requires o + 2 <= |s|
    ensures w < 0x1_0000
  {
    (s[o] as int) + 0x100 * (s[o + 1] as int)
  }

  /** `LD_DWORD`. */
  function LdDword(s: seq<byte>, o: nat): (d: nat)
    requires o + 4 <= |s|
    ensures d < 0x1_0000_0000
  {
    (s[o] as int) + 0x100 * (s[o + 1] as int) + 0x1_0000 * (s[o + 2] as int) + 0x100_0000 * (s[o + 3] as int)
  }

  /** The two bytes `ST_WORD` stores: the value truncated to 16 bits. */
  function StWord(v: nat): (b: seq<byte>)
    ensures |b| == 2 && LdWord(b, 0) == v % 0x1_0000
  {
    [v % 0x100, v / 0x100 % 0x100]
  }

  /** The four bytes `ST_DWORD` stores: the value truncated to 32 bits. */
  function StDword(v: nat): (b: seq<byte>)
    ensures |b| == 4 && LdDword(b, 0) == v % 0x1_0000_0000
  {
    var lo, hi := v % 0x1_0000, v / 0x1_0000 % 0x1_0000;
    [lo % 0x100, lo / 0x100, hi % 0x100, hi / 0x100]
  }

  /** Numbers lie in memory with the low byte first, whatever their width. */
  lemma LowByteFirst(s: seq<byte>, o: nat)
    requires o + 4 <= |s|
    ensures LdWord(s, o) % 0x100 == s[o] && LdWord(s, o) / 0x100 == s[o + 1]
    ensures LdDword(s, o) % 0x1_0000 == LdWord(s, o) && LdDword(s, o) / 0x1_0000 == LdWord(s, o + 2)
  {
  }

  /** `s` with the bytes of `d` copied over it from offset `o` on (`mem_cpy` into a buffer). */
  function Patch(s: seq<byte>, o: nat, d: seq<byte>): (r: seq<byte>)
    requires o + |d| <= |s|
    ensures |r| == |s|
    ensures forall i :: 0 <= i < |s| ==> r[i] == if o <= i < o + |d| then d[i - o] else s[i]
  {
    s[..o] + d + s[o + |d|..]
  }

  /** Consecutive sectors replaced from sector `s` on. */
  function Overlay(v: seq<Sector>, s: nat, d: seq<Sector>): (r: seq<Sector>)
    requires s + |d| <= |v|
    ensures |r| == |v|
    ensures forall i :: 0 <= i < |v| ==> r[i] == if s <= i < s + |d| then d[i - s] else v[i]
  {
    v[..s] + d + v[s + |d|..]
  }

  lemma OverlayMore(v: seq<Sector>, s: nat, d: seq<Sector>, k: nat)
    requires s + |d| <= |v| && k < |d|
    ensures Overlay(v, s, d[..k])[s + k := d[k]] == Overlay(v, s, d[..k + 1])
  {
  }

  /** Blank sectors. */
  function Blanks(n: nat): (d: seq<Sector>)
    ensures |d| == n
    ensures forall i :: 0 <= i < n ==> d[i] == Blank()
  {
    if n == 0 then [] else Blanks(n - 1) + [Blank()]
  }

  lemma OverlayNone(v: seq<Sector>, s: nat, d: seq<Sector>)
    requires s <= |v| && d == []
    ensures Overlay(v, s, d) == v
  {
  }

  lemma OverlayBlank(v: seq<Sector>, s: nat, k: nat)
    requires s + k < |v|
    ensures Overlay(v, s, Blanks(k))[s + k := Blank()] == Overlay(v, s, Blanks(k + 1))
  {
  }

  lemma FirstBlank(v: seq<Sector>, s: nat, k: nat)
    requires 0 < k && s + k <= |v|
    ensures Overlay(v, s, Blanks(k))[s] == Blank()
  {
  }
}
