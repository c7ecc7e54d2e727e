/** Facts about the packed cluster table: one entry can be set without disturbing any other. */
module FatTable {
  import opened Bytes
  import opened Layout

  /**
   * Reading back entry `d` after setting entry `c`: the value cut to 12, 16 or 28 bits when `d` is
   * `c`, the old entry otherwise, even when two FAT12 entries share a byte.
   */
  lemma EntryAfterSet(t: FatType, b: seq<byte>, c: nat, val: nat, d: nat)
    requires TableBytes(t, c + 1) <= |b| && TableBytes(t, d + 1) <= |b|
    ensures Entry(t, SetEntry(t, b, c, val), d) == if d == c then val % Radix(t) else Entry(t, b, d)
  {
    match t
    case Fat12 => EntryAfterSet12(b, c, val, d);
    case Fat16 => EntryAfterSet16(b, c, val, d);
    case Fat32 => EntryAfterSet32(b, c, val, d);
  }

  lemma EntryAfterSet16(b: seq<byte>, c: nat, val: nat, d: nat)
    requires TableBytes(Fat16, c + 1) <= |b| && TableBytes(Fat16, d + 1) <= |b|
    ensures Entry(Fat16, SetEntry(Fat16, b, c, val), d) ==
            if d == c then val % 0x1_0000 else Entry(Fat16, b, d)
  {
    hide Patch, StWord;
  }

  lemma EntryAfterSet32(b: seq<byte>, c: nat, val: nat, d: nat)
    requires TableBytes(Fat32, c + 1) <= |b| && TableBytes(Fat32, d + 1) <= |b|
    ensures Entry(Fat32, SetEntry(Fat32, b, c, val), d) ==
            if d == c then val % 0x1000_0000 else Entry(Fat32, b, d)
  {
    hide Patch, StDword, LdDword;
    LoadAfterPatch(b, 4 * c, StDword(val), 4 * d);
    assert val % 0x1_0000_0000 % 0x1000_0000 == val % 0x1000_0000;
  }

  /** A DWORD load after a DWORD store at the same place or clear of it. */
  lemma LoadAfterPatch(b: seq<byte>, o: nat, w: seq<byte>, p: nat)
    requires |w| == 4 && o + 4 <= |b| && p + 4 <= |b|
    ensures p == o ==> LdDword(Patch(b, o, w), p) == LdDword(w, 0)
    ensures p + 4 <= o || o + 4 <= p ==> LdDword(Patch(b, o, w), p) == LdDword(b, p)
  {
    hide Patch;
  }

  lemma EntryAfterSet12(b: seq<byte>, c: nat, val: nat, d: nat)
    requires TableBytes(Fat12, c + 1) <= |b| && TableBytes(Fat12, d + 1) <= |b|
    ensures Entry(Fat12, SetEntry(Fat12, b, c, val), d) ==
            if d == c then val % 0x1000 else Entry(Fat12, b, d)
  {
    hide Get12, Lo12, Hi12, Offset12;
    var odd, o, p := c % 2 == 1, Offset12(c), Offset12(d);
    Offset12Value(c);
    Offset12Value(d);
    if d == c {
      GetAfterStore(odd, b[o], b[o + 1], val);
    } else if d == c + 1 && !odd {
      SharedHigh(b[o + 1], b[p + 1], val);
    } else if c == d + 1 && odd {
      SharedLow(b[p], b[o], val);
    }
  }

  /** Pairs of FAT12 entries fill three bytes. */
  lemma Offset12Value(c: nat)
    ensures Offset12(c) == 3 * (c / 2) + c % 2
    ensures Offset12(c) + 1 < TableBytes(Fat12, c + 1)
  {
  }

  lemma GetAfterStore(odd: bool, x: byte, y: byte, val: nat)
    ensures Get12(odd, Lo12(odd, x, val), Hi12(odd, y, val)) == val % 0x1000
  {
    if odd {
      SplitLow4(val);
      GetOdd(x, val % 0x10, val / 0x10 % 0x100);
    } else {
      SplitLow8(val);
      GetEven(y, val % 0x100, val / 0x100 % 0x10);
    }
  }

  lemma SplitLow4(val: nat)
    ensures val % 0x1000 == val % 0x10 + 0x10 * (val / 0x10 % 0x100)
  {
  }

  lemma SplitLow8(val: nat)
    ensures val % 0x1000 == val % 0x100 + 0x100 * (val / 0x100 % 0x10)
  {
  }

  lemma GetOdd(x: byte, a: nat, b: byte)
    requires a < 0x10
    ensures Get12(true, x % 0x10 + 0x10 * a, b) == a + 0x10 * (b as int)
  {
  }

  lemma GetEven(y: byte, a: byte, b: nat)
    requires b < 0x10
    ensures Get12(false, a, y / 0x10 * 0x10 + b) == (a as int) + 0x100 * b
  {
  }

  /** An odd entry does not see a store to the even entry before it. */
  lemma SharedHigh(x: byte, y: byte, val: nat)
    ensures Get12(true, Hi12(false, x, val), y) == Get12(true, x, y)
  {
  }

  /** An even entry does not see a store to the odd entry after it. */
  lemma SharedLow(x: byte, y: byte, val: nat)
    ensures Get12(false, x, Lo12(true, y, val)) == Get12(false, x, y)
  {
  }

  /** Storing bytes in one sector of FAT copy 1 stores the same bytes in the flat table. */
  lemma StoreInFat(g: Geometry, v: View, s: nat, k: nat, d: seq<byte>)
    requires g.fatbase + g.sectsFat <= |v| && g.InFat(s) && k + |d| <= SECTOR_SIZE
    ensures (s - g.fatbase) * SECTOR_SIZE + k + |d| <= SECTOR_SIZE * g.sectsFat
    ensures FatBytes(g, v[s := Patch(v[s], k, d)]) ==
            Patch(FatBytes(g, v), (s - g.fatbase) * SECTOR_SIZE + k, d)
  {
    var a := FatBytes(g, v[s := Patch(v[s], k, d)]);
    var b := Patch(FatBytes(g, v), (s - g.fatbase) * SECTOR_SIZE + k, d);
    forall i | 0 <= i < |a| ensures a[i] == b[i] {
      assert i == i / SECTOR_SIZE * SECTOR_SIZE + i % SECTOR_SIZE;
    }
  }

  /** Sectors outside FAT copy 1 do not hold table entries. */
  lemma StoreElsewhere(g: Geometry, v: View, v': View)
    requires g.fatbase + g.sectsFat <= |v| == |v'|
    requires forall s :: g.InFat(s) ==> v'[s] == v[s]
    ensures FatBytes(g, v') == FatBytes(g, v)
  {
  }

  /** The table as a sequence of numbers after one entry is set. */
  lemma TableAfterSet(g: Geometry, v: View, v': View, c: nat, val: nat)
    requires g.WellFormed() && g.Fits(v) && g.Fits(v') && g.ValidCluster(c)
    requires TableBytes(g.fsType, c + 1) <= |FatBytes(g, v)|
    requires FatBytes(g, v') == SetEntry(g.fsType, FatBytes(g, v), c, val)
    ensures Table(g, v') == Table(g, v)[c := val % Radix(g.fsType)]
  {
    hide Entries, SetEntry, FatBytes;
    EntriesAfterSet(g.fsType, FatBytes(g, v), g.maxClust, c, val);
  }

  lemma EntriesAfterSet(t: FatType, b: seq<byte>, n: nat, c: nat, val: nat)
    requires c < n && TableBytes(t, n) <= |b| && TableBytes(t, c + 1) <= |b|
    ensures Entries(t, SetEntry(t, b, c, val), n) == Entries(t, b, n)[c := val % Radix(t)]
  {
    hide Entry, SetEntry;
    forall d | 0 <= d < n
      ensures Entry(t, SetEntry(t, b, c, val), d) == Entries(t, b, n)[c := val % Radix(t)][d]
    {
      EntryAfterSet(t, b, c, val, d);
    }
  }

  // ----- where the driver looks for an entry -----

  /** The sectors of an entry lie in FAT copy 1 and the offsets computed through `(WORD)` fit. */
  lemma SpotInFat(g: Geometry, c: nat)
    requires g.WellFormed() && g.ValidCluster(c)
    ensures g.fsType == Fat12 ==>
              && c % 0x1_0000 * 3 / 2 == Offset12(c)
              && g.InFat(g.fatbase + Offset12(c) / SECTOR_SIZE)
              && g.InFat(g.fatbase + (Offset12(c) + 1) / SECTOR_SIZE)
    ensures g.fsType == Fat16 ==>
              && g.InFat(g.fatbase + c / (SECTOR_SIZE / 2))
              && c % 0x1_0000 * 2 % SECTOR_SIZE + 2 <= SECTOR_SIZE
    ensures g.fsType == Fat32 ==>
              && g.InFat(g.fatbase + c / (SECTOR_SIZE / 4))
              && c % 0x1_0000 * 4 % SECTOR_SIZE + 4 <= SECTOR_SIZE
    ensures forall s :: g.InFat(s) ==> g.Windowed(s)
  {
    match g.fsType
    case Fat12 => Offset12Value(c);
    case Fat16 => CastOffset16(c);
    case Fat32 => CastOffset32(c);
  }

  /** The offset of an entry in its sector survives the `(WORD)` cast of the cluster number. */
  lemma CastOffset16(clst: nat)
    ensures clst % 0x1_0000 * 2 % SECTOR_SIZE == clst * 2 % SECTOR_SIZE
    ensures clst * 2 / SECTOR_SIZE == clst / (SECTOR_SIZE / 2)
    ensures clst * 2 % SECTOR_SIZE + 2 <= SECTOR_SIZE
  {
    WholeSectors(clst / 0x1_0000 * 256, clst % 0x1_0000 * 2);
    WholeSectors(clst / 256, clst % 256 * 2);
    WholeSectors(clst % 0x1_0000 / 256, clst % 256 * 2);
  }

  lemma CastOffset32(clst: nat)
    ensures clst % 0x1_0000 * 4 % SECTOR_SIZE == clst * 4 % SECTOR_SIZE
    ensures clst * 4 / SECTOR_SIZE == clst / (SECTOR_SIZE / 4)
    ensures clst * 4 % SECTOR_SIZE + 4 <= SECTOR_SIZE
  {
    WholeSectors(clst / 0x1_0000 * 512, clst % 0x1_0000 * 4);
    WholeSectors(clst / 128, clst % 128 * 4);
    WholeSectors(clst % 0x1_0000 / 128, clst % 128 * 4);
  }

  lemma WholeSectors(m: nat, x: nat)
    ensures (SECTOR_SIZE * m + x) % SECTOR_SIZE == x % SECTOR_SIZE
    ensures (SECTOR_SIZE * m + x) / SECTOR_SIZE == m + x / SECTOR_SIZE
  {
  }

  /** A run of table bytes that stays in one sector. */
  lemma SpotBytes(g: Geometry, v: View, o: nat, n: nat)
    requires g.fatbase + g.sectsFat <= |v| && o + n <= SECTOR_SIZE * g.sectsFat && 0 < n
    requires o % SECTOR_SIZE + n <= SECTOR_SIZE
    ensures g.InFat(g.fatbase + o / SECTOR_SIZE)
    ensures FatBytes(g, v)[o..o + n] ==
            v[g.fatbase + o / SECTOR_SIZE][o % SECTOR_SIZE..o % SECTOR_SIZE + n]
  {
    var r := FatBytes(g, v)[o..o + n];
    forall i | 0 <= i < n ensures r[i] == v[g.fatbase + o / SECTOR_SIZE][o % SECTOR_SIZE + i] {
      assert (o + i) / SECTOR_SIZE == o / SECTOR_SIZE && (o + i) % SECTOR_SIZE == o % SECTOR_SIZE + i;
    }
  }

  /** A load sees only its own bytes. */
  lemma LoadSlice(b: seq<byte>, o: nat, c: seq<byte>, p: nat)
    ensures o + 1 <= |b| && p + 1 <= |c| && b[o..o + 1] == c[p..p + 1] ==> b[o] == c[p]
    ensures o + 2 <= |b| && p + 2 <= |c| && b[o..o + 2] == c[p..p + 2] ==> LdWord(b, o) == LdWord(c, p)
    ensures o + 4 <= |b| && p + 4 <= |c| && b[o..o + 4] == c[p..p + 4] ==> LdDword(b, o) == LdDword(c, p)
  {
    if o + 1 <= |b| && p + 1 <= |c| {
      assert b[o..o + 1] == [b[o]] && c[p..p + 1] == [c[p]];
    }
    if o + 2 <= |b| && p + 2 <= |c| {
      assert b[o..o + 2] == [b[o], b[o + 1]] && c[p..p + 2] == [c[p], c[p + 1]];
    }
    if o + 4 <= |b| && p + 4 <= |c| {
      assert b[o..o + 4] == [b[o], b[o + 1], b[o + 2], b[o + 3]];
      assert c[p..p + 4] == [c[p], c[p + 1], c[p + 2], c[p + 3]];
    }
  }

  /** The bytes of an entry fit the table. */
  lemma EntryFits(g: Geometry, c: nat)
    requires g.WellFormed() && g.ValidCluster(c)
    ensures TableBytes(g.fsType, c + 1) <= SECTOR_SIZE * g.sectsFat
  {
  }

  lemma Spot12(g: Geometry, v: View, c: nat)
    requires g.WellFormed() && g.Fits(v) && g.ValidCluster(c) && g.fsType == Fat12
    ensures var o := Offset12(c);
            && g.InFat(g.fatbase + o / SECTOR_SIZE) && g.InFat(g.fatbase + (o + 1) / SECTOR_SIZE)
            && Table(g, v)[c] == Get12(c % 2 == 1, v[g.fatbase + o / SECTOR_SIZE][o % SECTOR_SIZE],
                                       v[g.fatbase + (o + 1) / SECTOR_SIZE][(o + 1) % SECTOR_SIZE])
  {
    hide Get12, FatBytes, LdWord, LdDword, Offset12;
    var o := Offset12(c);
    EntryFits(g, c);
    Offset12Value(c);
    SpotBytes(g, v, o, 1);
    SpotBytes(g, v, o + 1, 1);
    LoadSlice(FatBytes(g, v), o, v[g.fatbase + o / SECTOR_SIZE], o % SECTOR_SIZE);
    LoadSlice(FatBytes(g, v), o + 1, v[g.fatbase + (o + 1) / SECTOR_SIZE], (o + 1) % SECTOR_SIZE);
  }

  lemma Spot16(g: Geometry, v: View, c: nat)
    requires g.WellFormed() && g.Fits(v) && g.ValidCluster(c) && g.fsType == Fat16
    ensures var s := g.fatbase + c / (SECTOR_SIZE / 2);
            && g.InFat(s) && c % 0x1_0000 * 2 % SECTOR_SIZE + 2 <= SECTOR_SIZE
            && Table(g, v)[c] == LdWord(v[s], c % 0x1_0000 * 2 % SECTOR_SIZE)
  {
    hide FatBytes, LdWord, LdDword;
    EntryFits(g, c);
    CastOffset16(c);
    SpotBytes(g, v, c * 2, 2);
    LoadSlice(FatBytes(g, v), c * 2, v[g.fatbase + c * 2 / SECTOR_SIZE], c * 2 % SECTOR_SIZE);
  }

  lemma Spot32(g: Geometry, v: View, c: nat)
    requires g.WellFormed() && g.Fits(v) && g.ValidCluster(c) && g.fsType == Fat32
    ensures var s := g.fatbase + c / (SECTOR_SIZE / 4);
            && g.InFat(s) && c % 0x1_0000 * 4 % SECTOR_SIZE + 4 <= SECTOR_SIZE
            && Table(g, v)[c] == LdDword(v[s], c % 0x1_0000 * 4 % SECTOR_SIZE) % 0x1000_0000
  {
    hide FatBytes, LdWord, LdDword;
    EntryFits(g, c);
    CastOffset32(c);
    SpotBytes(g, v, c * 4, 4);
    LoadSlice(FatBytes(g, v), c * 4, v[g.fatbase + c * 4 / SECTOR_SIZE], c * 4 % SECTOR_SIZE);
  }

  // ----- what the driver's stores do to the table -----

  lemma Store16(g: Geometry, v: View, c: nat, val: nat)
    requires g.WellFormed() && g.Fits(v) && g.ValidCluster(c) && g.fsType == Fat16
    ensures var s, k := g.fatbase + c / (SECTOR_SIZE / 2), c % 0x1_0000 * 2 % SECTOR_SIZE;
            && g.InFat(s) && k + 2 <= SECTOR_SIZE
            && Table(g, v[s := Patch(v[s], k, StWord(val))]) == Table(g, v)[c := val % 0x1_0000]
  {
    hide FatBytes, Table, StWord, Patch;
    EntryFits(g, c);
    SpotInFat(g, c);
    CastOffset16(c);
    var s, k := g.fatbase + c / (SECTOR_SIZE / 2), c % 0x1_0000 * 2 % SECTOR_SIZE;
    StoreInFat(g, v, s, k, StWord(val));
    TableAfterSet(g, v, v[s := Patch(v[s], k, StWord(val))], c, val);
  }

  lemma Store32(g: Geometry, v: View, c: nat, val: nat)
    requires g.WellFormed() && g.Fits(v) && g.ValidCluster(c) && g.fsType == Fat32
    ensures var s, k := g.fatbase + c / (SECTOR_SIZE / 4), c % 0x1_0000 * 4 % SECTOR_SIZE;
            && g.InFat(s) && k + 4 <= SECTOR_SIZE
            && Table(g, v[s := Patch(v[s], k, StDword(val))]) == Table(g, v)[c := val % 0x1000_0000]
  {
    hide FatBytes, Table, StDword, Patch;
    EntryFits(g, c);
    SpotInFat(g, c);
    CastOffset32(c);
    var s, k := g.fatbase + c / (SECTOR_SIZE / 4), c % 0x1_0000 * 4 % SECTOR_SIZE;
    StoreInFat(g, v, s, k, StDword(val));
    TableAfterSet(g, v, v[s := Patch(v[s], k, StDword(val))], c, val);
  }

  /** The view after one byte of the table is stored. */
  function StoreByte(g: Geometry, v: View, o: nat, x: byte): (v': View)
    requires g.WellFormed() && g.Fits(v) && g.InFat(g.fatbase + o / SECTOR_SIZE)
    ensures g.Fits(v')
    ensures forall s :: 0 <= s < |v| && !g.InFat(s) ==> v'[s] == v[s]
  {
    var s := g.fatbase + o / SECTOR_SIZE;
    v[s := Patch(v[s], o % SECTOR_SIZE, [x])]
  }

  lemma FatBytesAfterByte(g: Geometry, v: View, o: nat, x: byte)
    requires g.WellFormed() && g.Fits(v) && o < SECTOR_SIZE * g.sectsFat
    ensures g.InFat(g.fatbase + o / SECTOR_SIZE)
    ensures FatBytes(g, StoreByte(g, v, o, x)) == FatBytes(g, v)[o := x]
  {
    hide FatBytes, Patch;
    StoreInFat(g, v, g.fatbase + o / SECTOR_SIZE, o % SECTOR_SIZE, [x]);
    assert Patch(FatBytes(g, v), o, [x]) == FatBytes(g, v)[o := x];
  }

  /** The two byte stores of a FAT12 entry, which may fall into different sectors. */
  lemma Store12(g: Geometry, v: View, c: nat, val: nat)
    requires g.WellFormed() && g.Fits(v) && g.ValidCluster(c) && g.fsType == Fat12
    ensures var o, odd := Offset12(c), c % 2 == 1;
            && g.InFat(g.fatbase + o / SECTOR_SIZE) && g.InFat(g.fatbase + (o + 1) / SECTOR_SIZE)
            && var x := v[g.fatbase + o / SECTOR_SIZE][o % SECTOR_SIZE];
            var v1 := StoreByte(g, v, o, Lo12(odd, x, val));
            var y := v1[g.fatbase + (o + 1) / SECTOR_SIZE][(o + 1) % SECTOR_SIZE];
            Table(g, StoreByte(g, v1, o + 1, Hi12(odd, y, val))) == Table(g, v)[c := val % 0x1000]
  {
    hide FatBytes, Table, Lo12, Hi12, Patch, StoreByte, Offset12;
    EntryFits(g, c);
    Offset12Value(c);
    var o, odd, b := Offset12(c), c % 2 == 1, FatBytes(g, v);
    SpotByte(g, v, o);
    var v1 := StoreByte(g, v, o, Lo12(odd, b[o], val));
    FatBytesAfterByte(g, v, o, Lo12(odd, b[o], val));
    SpotByte(g, v1, o + 1);
    FatBytesAfterByte(g, v1, o + 1, Hi12(odd, b[o + 1], val));
    TableAfterSet(g, v, StoreByte(g, v1, o + 1, Hi12(odd, b[o + 1], val)), c, val);
  }

  lemma SpotByte(g: Geometry, v: View, o: nat)
    requires g.WellFormed() && g.Fits(v) && o < SECTOR_SIZE * g.sectsFat
    ensures g.InFat(g.fatbase + o / SECTOR_SIZE)
    ensures FatBytes(g, v)[o] == v[g.fatbase + o / SECTOR_SIZE][o % SECTOR_SIZE]
  {
  }

  /** Two FAT12 entries fill three bytes, low bits first. */
  lemma EntryBytes12(b: seq<byte>, k: nat)
    requires 3 * k + 3 <= |b|
    ensures (b[3 * k] as int) + 0x100 * (b[3 * k + 1] as int) + 0x1_0000 * (b[3 * k + 2] as int) ==
            Entry(Fat12, b, 2 * k) + 0x1000 * Entry(Fat12, b, 2 * k + 1)
  {
    hide Get12;
    assert Offset12(2 * k) == 3 * k && Offset12(2 * k + 1) == 3 * k + 1;
    PairOf12(b[3 * k], b[3 * k + 1], b[3 * k + 2]);
  }

  /** The wider entries are words, and double words of which 28 bits count, one after the other. */
  lemma EntryBytes(b: seq<byte>, c: nat)
    ensures 2 * c + 2 <= |b| ==> Entry(Fat16, b, c) == (b[2 * c] as int) + 0x100 * (b[2 * c + 1] as int)
    ensures 4 * c + 4 <= |b| ==>
              Entry(Fat32, b, c) ==
              (b[4 * c] as int) + 0x100 * (b[4 * c + 1] as int) + 0x1_0000 * (b[4 * c + 2] as int)
              + 0x100_0000 * ((b[4 * c + 3] as int) % 0x10)
  {
    if 4 * c + 4 <= |b| {
      Low28(LdWord(b, 4 * c) + 0x1_0000 * (b[4 * c + 2] as int), b[4 * c + 3]);
    }
  }

  lemma Low28(lo: nat, hi: byte)
    requires lo < 0x100_0000
    ensures (lo + 0x100_0000 * (hi as int)) % 0x1000_0000 == lo + 0x100_0000 * ((hi as int) % 0x10)
  {
    DivUnique(lo + 0x100_0000 * (hi as int), (hi as int) / 0x10, lo + 0x100_0000 * ((hi as int) % 0x10), 0x1000_0000);
  }

  lemma PairOf12(x: byte, y: byte, z: byte)
    ensures (x as int) + 0x100 * (y as int) + 0x1_0000 * (z as int) == Get12(false, x, y) + 0x1000 * Get12(true, y, z)
  {
  }

  /** The table is the sectors of FAT copy 1 in order. */
  lemma TableInOrder(g: Geometry, v: View, k: nat)
    requires g.fatbase + g.sectsFat <= |v| && k < g.sectsFat
    ensures SECTOR_SIZE * (k + 1) <= |FatBytes(g, v)|
    ensures FatBytes(g, v)[SECTOR_SIZE * k..SECTOR_SIZE * (k + 1)] == v[g.fatbase + k]
  {
    var s := FatBytes(g, v)[SECTOR_SIZE * k..SECTOR_SIZE * (k + 1)];
    forall i | 0 <= i < SECTOR_SIZE ensures s[i] == v[g.fatbase + k][i] {
      DivUnique(SECTOR_SIZE * k + i, k, i, SECTOR_SIZE);
    }
  }
}
