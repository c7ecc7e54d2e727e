/**
 * The on-disk layout of a FAT volume: the fields of FATFS that mounting fixes, the cluster table in
 * its three packings, and where the bytes of a cluster chain live.
 *
 * Everything here is a function of a "view": the sequence of sectors a reader of the volume sees.
 */
module Layout {
  import opened Bytes

  const TWO32 := 0x1_0000_0000

  /** `a * b` by repeated addition, which keeps the proofs about sector numbers linear. */
  function Mul(a: nat, b: nat): (p: nat) {
    if a == 0 then 0 else Mul(a - 1, b) + b
  }

  lemma {:induction false} MulIsProduct(a: nat, b: nat)
    ensures Mul(a, b) == a * b
  {
    if a > 0 {
      MulIsProduct(a - 1, b);
      assert (a - 1) * b + b == a * b;
    }
  }

  function Product(a: nat, b: nat): (p: nat)
    ensures p == Mul(a, b)
  {
    MulIsProduct(a, b);
    a * b
  }

  lemma {:induction false} MulMonotone(a: nat, c: nat, b: nat)
    requires a <= c
    ensures Mul(a, b) <= Mul(c, b)
    ensures a < c ==> Mul(a, b) + b <= Mul(c, b)
  {
    if a < c {
      MulMonotone(a, c - 1, b);
    }
  }

  /** Number of sectors, clusters and bytes are all DWORDs in the driver. */
  type View = seq<Sector>

  lemma DivUnique(x: nat, q: nat, r: nat, d: nat)
    requires x == q * d + r && r < d
    ensures x / d == q && x % d == r
  {
    var e := x / d - q;
    assert e * d == r - x % d;
    SmallMultiple(e, d);
  }

  lemma SmallMultiple(e: int, d: int)
    requires 0 <= d && 0 - d < e * d < d
    ensures e == 0
  {
    if e > 0 {
      AtLeast(e, d);
    } else if e < 0 {
      AtLeast(-e, d);
    }
  }

  lemma AtLeast(e: int, d: int)
    requires 1 <= e && 0 <= d
    ensures d <= e * d
  {
  }

  /** How many clusters of `bcs` bytes hold `n` bytes. */
  function ClustersFor(n: nat, bcs: nat): (m: nat)
    requires 0 < bcs
    ensures m == 0 <==> n == 0
  {
    if n == 0 then 0 else if n <= bcs then 1 else 1 + ClustersFor(n - bcs, bcs)
  }

  /** Just as many as it takes. */
  lemma {:induction false} ClustersForCeil(n: nat, bcs: nat)
    requires 0 < bcs
    ensures n <= Mul(ClustersFor(n, bcs), bcs) < n + bcs
    decreases n
  {
    if bcs < n {
      ClustersForCeil(n - bcs, bcs);
    }
  }

  lemma {:induction false} ClustersForMonotone(n: nat, m: nat, bcs: nat)
    requires 0 < bcs && n <= m
    ensures ClustersFor(n, bcs) <= ClustersFor(m, bcs)
    decreases n
  {
    if bcs < n {
      ClustersForMonotone(n - bcs, m - bcs, bcs);
    }
  }

  lemma {:induction false} MulScale(k: nat, c: nat, w: nat)
    ensures Mul(k, c * w) == w * Mul(k, c)
  {
    if k > 0 {
      MulScale(k - 1, c, w);
    }
  }

  /** Skipping whole clusters. */
  lemma {:induction false} ClustersForSkip(n: nat, bcs: nat, k: nat)
    requires 0 < bcs && Mul(k, bcs) < n
    ensures ClustersFor(n, bcs) == k + ClustersFor(n - Mul(k, bcs), bcs)
  {
    if k > 0 {
      ClustersForSkip(n, bcs, k - 1);
    }
  }

  datatype FatType = Fat12 | Fat16 | Fat32

  /** The number of distinct values of a table entry (12, 16 or 28 bits). */
  function Radix(t: FatType): nat {
    match t
    case Fat12 => 0x1000
    case Fat16 => 0x1_0000
    case Fat32 => 0x1000_0000
  }

  /** The bytes a table with `n` entries occupies. */
  function TableBytes(t: FatType, n: nat): nat {
    match t
    case Fat12 => (3 * n + 1) / 2
    case Fat16 => 2 * n
    case Fat32 => 4 * n
  }

  /** The part of FATFS that is fixed once the volume is mounted, and the size of the drive. */
  datatype Geometry = Geometry(
    fsType: FatType,
    csize: nat,      // sectors per cluster
    nFats: nat,      // number of FAT copies
    nRootdir: nat,   // entries of the static root directory
    sectsFat: nat,   // sectors per FAT copy
    maxClust: nat,   // highest cluster number plus one
    fatbase: nat,    // first sector of FAT copy 1
    dirbase: nat,    // first sector (cluster on FAT32) of the root directory
    database: nat,   // first data sector
    fsiSector: nat,  // FSInfo sector (FAT32 only)
    nsects: nat      // sectors on the drive
  ) {
    /** What mounting a sound volume establishes. */
    ghost predicate WellFormed() {
      && csize in {1, 2, 4, 8, 16, 32, 64, 128}
      && 1 <= nFats && 1 <= sectsFat
      && fatbase + sectsFat <= MirrorEnd()
      && 2 <= maxClust
      && (fsType == Fat12 ==> maxClust < 0xFF7)
      && (fsType == Fat16 ==> 0xFF7 <= maxClust < 0xFFF7)
      && (fsType == Fat32 ==> 0xFFF7 <= maxClust < 0x0FFF_FFF7)
      && TableBytes(fsType, maxClust) <= SECTOR_SIZE * sectsFat
      && 1 <= fatbase
      && MirrorEnd() + nRootdir / 16 <= database
      && nRootdir % 16 == 0 && nRootdir < 0x1_0000
      && (fsType != Fat32 ==> dirbase == MirrorEnd())
      && (fsType == Fat32 ==> 2 <= dirbase < maxClust && nRootdir == 0)
      && database + Mul(maxClust - 2, csize) <= nsects < TWO32
    }

    /** Where the FSInfo sector of a volume that has one lies. */
    predicate FsInfoFits() { fsType == Fat32 ==> 1 <= fsiSector < fatbase }

    /** First sector after the last FAT copy. */
    function MirrorEnd(): nat { fatbase + Mul(nFats, sectsFat) }

    /** The sectors of FAT copies 2, 3, ...; only write-back touches them and nothing reads them. */
    predicate Mirror(s: int) { fatbase + sectsFat <= s < MirrorEnd() }

    /** Every sector of the drive except those of the further FAT copies. */
    predicate Seen(s: int) { 0 <= s < nsects && !Mirror(s) }

    /** The sectors the window may hold: the cluster table, the directories and the data. */
    predicate Windowed(s: int) { fatbase <= s && Seen(s) }

    /** The sectors of FAT copy 1. */
    predicate InFat(s: int) { fatbase <= s < fatbase + sectsFat }

    /** Bytes per cluster. */
    function Bcs(): nat { csize * SECTOR_SIZE }

    predicate ValidCluster(c: int) { 2 <= c < maxClust }

    /** First sector of a cluster. */
    function ClusterBase(c: nat): nat
      requires ValidCluster(c)
    {
      database + Mul(c - 2, csize)
    }

    ghost predicate Fits(v: View) { |v| == nsects }
  }

  lemma ClusterInRange(g: Geometry, c: nat)
    requires g.WellFormed() && g.ValidCluster(c)
    ensures g.ClusterBase(c) + g.csize <= g.nsects
  {
    MulMonotone(c - 2, g.maxClust - 2, g.csize);
  }

  /** Distinct clusters occupy disjoint sector ranges. */
  lemma ClustersDisjoint(g: Geometry, c: nat, i: nat, d: nat, j: nat)
    requires g.ValidCluster(c) && g.ValidCluster(d) && i < g.csize && j < g.csize
    ensures g.ClusterBase(c) + i == g.ClusterBase(d) + j <==> c == d && i == j
  {
    if c < d {
      MulMonotone(c - 2, d - 2, g.csize);
    } else if d < c {
      MulMonotone(d - 2, c - 2, g.csize);
    }
  }

  /** Cluster 2 starts the data area, and the clusters follow each other without gaps. */
  lemma ClusterLayout(g: Geometry, c: nat)
    requires g.ValidCluster(c)
    ensures g.ValidCluster(2) && g.ClusterBase(2) == g.database
    ensures g.ValidCluster(c + 1) ==> g.ClusterBase(c + 1) == g.ClusterBase(c) + g.csize
  {
  }

  // ----- the cluster table -----

  /** FAT copy 1 as one byte string. */
  function FatBytes(g: Geometry, v: View): (b: seq<byte>)
    requires g.fatbase + g.sectsFat <= |v|
    ensures |b| == SECTOR_SIZE * g.sectsFat
  {
    seq(SECTOR_SIZE * g.sectsFat, i requires 0 <= i < SECTOR_SIZE * g.sectsFat =>
      v[g.fatbase + i / SECTOR_SIZE][i % SECTOR_SIZE])
  }

  /** Offset of the first of the two bytes that hold FAT12 entry `c`. */
  function Offset12(c: nat): nat { c * 3 / 2 }

  /** A FAT12 entry taken from its two bytes. */
  function Get12(odd: bool, lo: byte, hi: byte): (e: nat)
    ensures e < 0x1000
  {
    var w := (lo as int) + 0x100 * (hi as int);
    if odd then w / 0x10 else w % 0x1000
  }

  /** The first byte of a FAT12 entry after a store; an odd entry keeps its low nibble. */
  function Lo12(odd: bool, before: byte, val: nat): byte {
    if odd then before % 0x10 + 0x10 * (val % 0x10) else val % 0x100
  }

  /** The second byte of a FAT12 entry after a store; an even entry keeps its high nibble. */
  function Hi12(odd: bool, before: byte, val: nat): byte {
    if odd then val / 0x10 % 0x100 else before / 0x10 * 0x10 + val / 0x100 % 0x10
  }

  /** The entry of cluster `c`: a link, a free mark (0) or an end mark. */
  function Entry(t: FatType, b: seq<byte>, c: nat): (e: nat)
    requires TableBytes(t, c + 1) <= |b|
    ensures e < Radix(t)
  {
    match t
    case Fat12 => Get12(c % 2 == 1, b[Offset12(c)], b[Offset12(c) + 1])
    case Fat16 => LdWord(b, c * 2)
    case Fat32 => LdDword(b, c * 4) % 0x1000_0000
  }

  /** A table of `n` entries read out as numbers. */
  function Entries(t: FatType, b: seq<byte>, n: nat): (e: seq<nat>)
    requires TableBytes(t, n) <= |b|
    ensures |e| == n
    ensures forall c :: 0 <= c < n ==> e[c] < Radix(t)
  {
    seq(n, c requires 0 <= c < n => Entry(t, b, c))
  }

  /** The whole table: one number per cluster. */
  function Table(g: Geometry, v: View): (t: seq<nat>)
    requires g.fatbase + g.sectsFat <= |v|
    requires TableBytes(g.fsType, g.maxClust) <= SECTOR_SIZE * g.sectsFat
    ensures |t| == g.maxClust
    ensures forall c :: 0 <= c < g.maxClust ==> t[c] < Radix(g.fsType)
  {
    Entries(g.fsType, FatBytes(g, v), g.maxClust)
  }

  /** The table bytes after the entry of `c` is set to `val`. */
  function SetEntry(t: FatType, b: seq<byte>, c: nat, val: nat): (r: seq<byte>)
    requires TableBytes(t, c + 1) <= |b|
    ensures |r| == |b|
  {
    match t
    case Fat12 =>
      var o := Offset12(c);
      b[o := Lo12(c % 2 == 1, b[o], val)][o + 1 := Hi12(c % 2 == 1, b[o + 1], val)]
    case Fat16 => Patch(b, 2 * c, StWord(val))
    case Fat32 => Patch(b, 4 * c, StDword(val))
  }
}