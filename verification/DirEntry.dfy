/** A 32-byte directory entry and the fields the driver uses. */
module DirEntry {
  import opened Bytes

  const ENTRY_SIZE := 32
  const DIR_ATTR := 11
  const DIR_NTRES := 12
  const DIR_CRT_TIME := 14
  const DIR_FST_CLUS_HI := 20
  const DIR_WRT_TIME := 22
  const DIR_FST_CLUS_LO := 26
  const DIR_FILE_SIZE := 28

  const AM_VOL := 0x08
  const AM_ARC := 0x20

  const DELETED := 0xE5

  type Entry = e: seq<byte> | |e| == ENTRY_SIZE witness seq(ENTRY_SIZE, _ => 0)

  /** Whether attribute bit `m` (a power of two) is set. */
  predicate HasBit(a: byte, m: nat)
    requires 0 < m
  {
    a / m % 2 == 1
  }

  /** The entry at offset `o` of sector `s`. */
  function EntryAt(v: seq<Sector>, s: nat, o: nat): (e: Entry)
    requires s < |v| && o + ENTRY_SIZE <= SECTOR_SIZE
  {
    v[s][o..o + ENTRY_SIZE]
  }

  function StartCluster(e: Entry): (c: nat)
    ensures c < 0x1_0000_0000
  {
    LdWord(e, DIR_FST_CLUS_HI) * 0x1_0000 + LdWord(e, DIR_FST_CLUS_LO)
  }

  function FileSize(e: Entry): (n: nat)
    ensures n < 0x1_0000_0000
  {
    LdDword(e, DIR_FILE_SIZE)
  }

  /** `a | AM_ARC`. */
  function WithArchive(a: byte): byte {
    if HasBit(a, AM_ARC) then a else a + AM_ARC
  }

  /** The stores that point an entry at a chain of `size` bytes starting at `org`. */
  function PointAt(e: Entry, org: nat, size: nat): (r: Entry) {
    var a: Entry := Patch(e, DIR_FST_CLUS_HI, StWord(org / 0x1_0000));
    var b: Entry := Patch(a, DIR_FST_CLUS_LO, StWord(org));
    Patch(b, DIR_FILE_SIZE, StDword(size))
  }

  /** What `f_sync` makes of an entry; the clock reads 0. */
  function Recorded(e: Entry, org: nat, size: nat): (r: Entry) {
    var a: Entry := e[DIR_ATTR := WithArchive(e[DIR_ATTR])];
    var b: Entry := PointAt(a, org, size);
    Patch(b, DIR_WRT_TIME, StDword(0))
  }

  /** A word or double word read back where it was stored, or clear of the store. */
  lemma LoadPatched(e: Entry, o: nat, d: seq<byte>, p: nat)
    requires o + |d| <= ENTRY_SIZE && p + 2 <= ENTRY_SIZE
    ensures |d| == 2 && p == o ==> LdWord(Patch(e, o, d), p) == LdWord(d, 0)
    ensures p + 2 <= o || o + |d| <= p ==> LdWord(Patch(e, o, d), p) == LdWord(e, p)
  {
    hide Patch;
  }

  lemma LoadPatched4(e: Entry, o: nat, d: seq<byte>, p: nat)
    requires o + |d| <= ENTRY_SIZE && p + 4 <= ENTRY_SIZE
    ensures |d| == 4 && p == o ==> LdDword(Patch(e, o, d), p) == LdDword(d, 0)
    ensures p + 4 <= o || o + |d| <= p ==> LdDword(Patch(e, o, d), p) == LdDword(e, p)
  {
    hide Patch;
  }

  /** The start cluster and the size read back, and the rest of the entry stays. */
  lemma PointAtFields(e: Entry, org: nat, size: nat)
    requires org < 0x1_0000_0000 && size < 0x1_0000_0000
    ensures StartCluster(PointAt(e, org, size)) == org
    ensures FileSize(PointAt(e, org, size)) == size
    ensures forall i :: 0 <= i < DIR_FILE_SIZE && !(20 <= i < 22) && !(26 <= i < 28) ==>
              PointAt(e, org, size)[i] == e[i]
  {
    hide Patch, StWord, StDword, LdWord, LdDword;
    var a: Entry := Patch(e, DIR_FST_CLUS_HI, StWord(org / 0x1_0000));
    var b: Entry := Patch(a, DIR_FST_CLUS_LO, StWord(org));
    LoadPatched(e, DIR_FST_CLUS_HI, StWord(org / 0x1_0000), DIR_FST_CLUS_HI);
    LoadPatched(a, DIR_FST_CLUS_LO, StWord(org), DIR_FST_CLUS_HI);
    LoadPatched(a, DIR_FST_CLUS_LO, StWord(org), DIR_FST_CLUS_LO);
    LoadPatched(b, DIR_FILE_SIZE, StDword(size), DIR_FST_CLUS_HI);
    LoadPatched(b, DIR_FILE_SIZE, StDword(size), DIR_FST_CLUS_LO);
    LoadPatched4(b, DIR_FILE_SIZE, StDword(size), DIR_FILE_SIZE);
  }

  /** A synced entry leads to the file and keeps its name, its other attributes and its dates. */
  lemma RecordedFields(e: Entry, org: nat, size: nat)
    requires org < 0x1_0000_0000 && size < 0x1_0000_0000
    ensures StartCluster(Recorded(e, org, size)) == org
    ensures FileSize(Recorded(e, org, size)) == size
    ensures forall i :: 0 <= i < 20 && i != 11 ==> Recorded(e, org, size)[i] == e[i]
    ensures forall i :: 22 <= i < 26 ==> Recorded(e, org, size)[i] == 0
    ensures var was, now := e[11] as int, Recorded(e, org, size)[11] as int;
            now % 0x20 == was % 0x20 && now / 0x40 == was / 0x40 && now / 0x20 % 2 == 1
  {
    hide Patch, StDword, LdWord, LdDword, PointAt;
    var a: Entry := e[DIR_ATTR := WithArchive(e[DIR_ATTR])];
    var b: Entry := PointAt(a, org, size);
    ArchiveOnly(e[DIR_ATTR]);
    PointAtFields(a, org, size);
    assert StDword(0) == [0, 0, 0, 0] by { ZeroBytes(); }
    LoadPatched(b, DIR_WRT_TIME, StDword(0), DIR_FST_CLUS_HI);
    LoadPatched(b, DIR_WRT_TIME, StDword(0), DIR_FST_CLUS_LO);
    LoadPatched4(b, DIR_WRT_TIME, StDword(0), DIR_FILE_SIZE);
  }

  /** The archive bit, bit 5, is set, and the others are as they were. */
  lemma ArchiveOnly(a: byte)
    ensures var was, now := a as int, WithArchive(a) as int;
            now % 0x20 == was % 0x20 && now / 0x40 == was / 0x40 && now / 0x20 % 2 == 1
  {
  }

  lemma ZeroBytes()
    ensures StDword(0) == [0, 0, 0, 0]
  {
  }

  /** What `f_open` makes of an entry it has emptied: no attributes, created at time 0. */
  function Reset(e: Entry): (r: Entry) {
    Patch(e[DIR_ATTR := 0], DIR_CRT_TIME, StDword(0))
  }

  lemma ResetFields(e: Entry)
    ensures StartCluster(Reset(e)) == StartCluster(e) && FileSize(Reset(e)) == FileSize(e)
    ensures forall i :: 0 <= i < ENTRY_SIZE && i != 11 && !(14 <= i < 18) ==> Reset(e)[i] == e[i]
    ensures forall i :: i == 11 || 14 <= i < 18 ==> Reset(e)[i] == 0
  {
    hide Patch, StDword, LdWord, LdDword;
    var a: Entry := e[DIR_ATTR := 0];
    LoadPatched(a, DIR_CRT_TIME, StDword(0), DIR_FST_CLUS_HI);
    LoadPatched(a, DIR_CRT_TIME, StDword(0), DIR_FST_CLUS_LO);
    LoadPatched4(a, DIR_CRT_TIME, StDword(0), DIR_FILE_SIZE);
    LoadFrame(e, a);
    ZeroBytes();
  }

  lemma LoadFrame(e: Entry, a: Entry)
    requires a == e[DIR_ATTR := 0]
    ensures LdWord(a, DIR_FST_CLUS_HI) == LdWord(e, DIR_FST_CLUS_HI)
    ensures LdWord(a, DIR_FST_CLUS_LO) == LdWord(e, DIR_FST_CLUS_LO)
    ensures LdDword(a, DIR_FILE_SIZE) == LdDword(e, DIR_FILE_SIZE)
  {
  }
}
