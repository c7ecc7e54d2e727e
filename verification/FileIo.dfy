/** Byte-level file access through a cached cursor: `f_read`, `f_write`, `f_lseek`, `f_sync`. */
module FileIo {
  import opened Bytes
  import opened Layout
  import opened DirEntry
  import opened FatTable
  import opened FileData
  import opened Volume
  import C = Chains

  /** The chain of a file holds its bytes. */
  ghost predicate Placed(g: Geometry, v: View, org: nat, chain: seq<nat>, fsize: nat) {
    && g.WellFormed() && g.Fits(v)
    && Clusters(g, chain)
    && (org == 0 <==> chain == [])
    && (chain != [] ==> chain[0] == org && C.IsChain(Table(g, v), chain))
    && fsize <= SECTOR_SIZE * Mul(|chain|, g.csize) && fsize < TWO32
  }

  /** A file and its volume as `f_write` finds them. */
  datatype Before = Before(p: nat, live: seq<byte>, view: View, chain: seq<nat>, past: History, table: C.Table,
                           hint: nat, counted: bool, quiet: bool, medium: View)

  class File {
    const fs: FatFs
    const dirSect: nat      // sector of the directory entry
    const dirOfs: nat       // offset of the entry in that sector
    var canRead: bool       // FA_READ
    var canWrite: bool      // FA_WRITE
    var written: bool       // FA__WRITTEN
    var aborted: bool       // FA__ERROR
    var fptr: nat
    var fsize: nat
    var csect: nat
    var orgClust: nat
    var currClust: nat
    var dsect: nat

    /** The clusters of the file in order. */
    ghost var chain: seq<nat>

    /** The index in `chain` of the current cluster. */
    ghost var link: nat

    /** The tail of `f_open` for an existing file: the fields come from its directory entry. */
    constructor (fs: FatFs, dirSect: nat, dirOfs: nat, canRead: bool, canWrite: bool,
                 orgClust: nat, fsize: nat, ghost chain: seq<nat>)
      requires fs.Valid() && Placed(fs.geo, fs.view, orgClust, chain, fsize)
      ensures Valid() && this.fs == fs && this.chain == chain && !aborted && !written
      ensures this.dirSect == dirSect && this.dirOfs == dirOfs
      ensures this.orgClust == orgClust && this.fsize == fsize && fptr == 0
      ensures this.canRead == canRead && this.canWrite == canWrite
    {
      this.fs, this.dirSect, this.dirOfs := fs, dirSect, dirOfs;
      this.canRead, this.canWrite, written, aborted := canRead, canWrite, false, false;
      this.orgClust, this.fsize, this.chain := orgClust, fsize, chain;
      fptr, csect, currClust, dsect, link := 0, 255, 0, 0, 0;
    }

    ghost function Spots(): seq<nat>
      requires Clusters(fs.geo, chain)
      reads `chain
    {
      Sectors(fs.geo, chain)
    }

    /** The cursor describes the position of the last byte before `fptr`. */
    ghost predicate Cursor()
      requires Clusters(fs.geo, chain)
      reads `fptr, `csect, `currClust, `dsect, `link, `chain
    {
      && ((fptr == 0 && csect == 255) ||
          (&& 0 < fptr && link < |chain| && currClust == chain[link]
           && 1 <= csect <= fs.geo.csize
           && (fptr - 1) / SECTOR_SIZE == Mul(link, fs.geo.csize) + csect - 1
           && (fptr % SECTOR_SIZE != 0 ==>
                 fptr / SECTOR_SIZE < |Spots()| && dsect == Spots()[fptr / SECTOR_SIZE])))
    }

    /** The next byte starts a sector of the current cluster. */
    ghost predicate AtSector()
      requires Clusters(fs.geo, chain)
      reads `fptr, `csect, `currClust, `dsect, `link, `chain
    {
      && fptr % SECTOR_SIZE == 0
      && link < |chain| && currClust == chain[link] && csect < fs.geo.csize
      && fptr / SECTOR_SIZE == Mul(link, fs.geo.csize) + csect
    }

    ghost predicate Valid()
      reads this, fs, fs.win, fs.disk
    {
      && fs.Valid()
      && Placed(fs.geo, fs.view, orgClust, chain, fsize)
      && fptr <= fsize
      && Cursor()
    }

    /** The bytes of the file. */
    ghost function Data(): (b: seq<byte>)
      requires Placed(fs.geo, fs.view, orgClust, chain, fsize)
      reads this, fs`view
      ensures |b| == fsize
    {
      SpotsInView(fs.geo, fs.view, chain);
      Content(fs.view, Spots(), fsize)
    }

    /** `f_read` at a cluster boundary: follow the chain. */
    method NextForRead() returns (res: Fresult)
      requires Valid() && !aborted && fptr < fsize
      requires fptr % SECTOR_SIZE == 0 && csect >= fs.geo.csize
      modifies `currClust, `csect, `link, `aborted
      modifies fs`winsect, fs`wflag, fs`stamps, fs`exempt, fs.win, fs.disk
      ensures fs.Valid()
      ensures fs.disk.reliable ==> res == FrOk
      ensures res == FrOk ==> !aborted && AtSector() && csect == 0
      ensures res == FrOk && fptr != 0 ==> fs.geo.InFat(fs.winsect)
      ensures res == FrOk && fptr == 0 ==>
        fs.winsect == old(fs.winsect) && fs.wflag == old(fs.wflag) && fs.disk.sectors == old(fs.disk.sectors)
      ensures res != FrOk ==> res == FrDiskErr && aborted
      ensures Later(old(fs.Past()), fs.Past(), {})
    {
      hide FatFs.Logged, FatFs.Coherent, FatFs.Current, AheadIn, Sectors, Table, C.IsChain, Clusters;
      fs.LaterNow();
      assert chain != [];
      LinkAt(fs.geo, fs.view, chain, 0);
      if fptr != 0 {
        BoundaryLink(fs.geo, |chain|, fptr, link, csect);
        LinkAt(fs.geo, fs.view, chain, link);
      }
      var clst;
      if fptr == 0 {
        clst := orgClust;
      } else {
        clst := fs.GetCluster(currClust);
      }
      if clst <= 1 || clst == DISK_ERROR {
        aborted := true;
        return if clst <= 1 then FrIntErr else FrDiskErr;
      }
      link := if fptr == 0 then 0 else link + 1;
      currClust := clst;
      csect := 0;
      res := FrOk;
    }

    /** The sectors a transfer of `n` bytes takes in one go from sector `c` of a cluster, clipped at its end. */
    function RunLength(n: nat, c: nat): (cc: nat)
      requires c <= fs.geo.csize
      ensures SECTOR_SIZE * cc <= n
      ensures cc <= n / SECTOR_SIZE && c + cc <= fs.geo.csize
      ensures 0 < cc <==> SECTOR_SIZE <= n && c < fs.geo.csize
      ensures cc == n / SECTOR_SIZE || c + cc == fs.geo.csize
    {
      if n / SECTOR_SIZE < fs.geo.csize - c then n / SECTOR_SIZE else fs.geo.csize - c
    }

    /** `f_read`: whole sectors straight from the drive, at most to the end of the cluster. */
    method ReadDirect(btr: nat) returns (ok: bool, d: seq<Sector>)
      requires fs.geo.WellFormed() && fs.geo.Fits(fs.disk.sectors) && Clusters(fs.geo, chain)
      requires AtSector() && SECTOR_SIZE <= btr
      modifies `csect, `fptr
      ensures fs.disk.reliable ==> ok
      ensures !ok ==> fptr == old(fptr)
      ensures ok ==>
                && |d| == RunLength(btr, old(csect))
                && fptr == old(fptr) + SECTOR_SIZE * |d| && csect == old(csect) + |d|
                && var j := old(fptr) / SECTOR_SIZE;
                   forall k :: j <= k < j + |d| ==>
                     k < |Spots()| && Spots()[k] < fs.geo.nsects &&
                     d[k - j] == fs.disk.sectors[Spots()[k]]
    {
      hide Mul, Sectors, Clusters;
      var g := fs.geo;
      RunOfCluster(g, chain, link, csect, RunLength(btr, csect));
      ClusterInRange(g, currClust);
      var sect := fs.Clust2Sect(currClust) + csect;
      var cc := RunLength(btr, csect);
      ok, d := fs.disk.ReadMany(sect, cc);
      if ok {
        ghost var j, ss := fptr / SECTOR_SIZE, Spots();
        forall k | j <= k < j + |d|
          ensures k < |ss| && ss[k] < g.nsects && d[k - j] == fs.disk.sectors[ss[k]]
        {
          assert ss[k] == ss[j] + (k - j);
        }
        csect := csect + cc;
        fptr := fptr + SECTOR_SIZE * cc;
        assert Spots() == ss;
      }
    }

    /** The next byte lies in the sector `dsect`, which the cursor already counts. */
    ghost predicate InSector()
      requires Clusters(fs.geo, chain)
      reads `fptr, `csect, `currClust, `dsect, `link, `chain
    {
      && link < |chain| && currClust == chain[link] && 1 <= csect <= fs.geo.csize
      && fptr / SECTOR_SIZE == Mul(link, fs.geo.csize) + csect - 1 < |Spots()|
      && dsect == Spots()[fptr / SECTOR_SIZE]
    }

    /** `f_read`: part of one sector, through the window. */
    method ReadPart(btr: nat) returns (res: Fresult, d: seq<byte>)
      requires fs.Valid() && Placed(fs.geo, fs.view, orgClust, chain, fsize)
      requires InSector() && 0 < btr && fptr + btr <= fsize
      modifies `fptr, fs`winsect, fs`wflag, fs`stamps, fs`exempt, fs.win, fs.disk
      ensures fs.Valid()
      ensures fs.disk.reliable ==> res == FrOk
      ensures res == FrOk ==>
                && 0 < |d| <= btr && fptr == old(fptr) + |d| && d == Data()[old(fptr)..fptr]
                && Cursor() && fs.winsect == dsect
                && (fptr % SECTOR_SIZE == 0 || |d| == btr)
      ensures res != FrOk ==> res == FrDiskErr && fptr == old(fptr)
      ensures Later(old(fs.Past()), fs.Past(), {})
    {
      hide Later, Mul, Table, Sectors, Content, FatFs.Coherent, FatFs.Logged;
      var o := fptr % SECTOR_SIZE;
      var rcnt := SECTOR_SIZE - o;
      if rcnt > btr {
        rcnt := btr;
      }
      SpotsInView(fs.geo, fs.view, chain);
      SectorInData(fs.geo, chain, fptr / SECTOR_SIZE);
      res := fs.MoveWindow(dsect);
      if res != FrOk {
        d := [];
        return;
      }
      d := fs.win[o..o + rcnt];
      ContentPart(fs.view, Spots(), fsize, fptr / SECTOR_SIZE, o, rcnt);
      fptr := fptr + rcnt;
    }

    /** The sectors the next turn of `f_read` takes from the drive without touching the window. */
    ghost function FirstRun(btr: nat): (cc: nat)
      requires fs.geo.WellFormed()
      reads this
      ensures SECTOR_SIZE * cc <= btr
    {
      if fptr % SECTOR_SIZE != 0 then 0
      else if fptr == 0 then RunLength(btr, 0)
      else if csect < fs.geo.csize then RunLength(btr, csect)
      else 0
    }

    /** A dirty window holds one of those sectors, so the drive has an older content for it. */
    ghost predicate Stale(btr: nat)
      requires fs.geo.WellFormed() && Clusters(fs.geo, chain)
      reads this, fs
    {
      && fs.wflag && 0 < FirstRun(btr)
      && fptr / SECTOR_SIZE < |Spots()|
      && Spots()[fptr / SECTOR_SIZE] <= fs.winsect < Spots()[fptr / SECTOR_SIZE] + FirstRun(btr)
    }

    /** What the next turn of `f_read` shows: the logical disk, except for a stale sector. */
    ghost function Shown(btr: nat): (u: View)
      requires fs.geo.WellFormed() && Clusters(fs.geo, chain)
      requires fs.geo.Fits(fs.view) && fs.geo.Fits(fs.disk.sectors) && fs.winsect < fs.geo.nsects
      reads this, fs, fs.disk
      ensures fs.geo.Fits(u)
    {
      if Stale(btr) then fs.view[fs.winsect := fs.disk.sectors[fs.winsect]] else fs.view
    }

    /** After a turn: no later direct transfer meets a dirty window before the window moves. */
    ghost predicate Settled(btr: nat)
      requires fs.geo.WellFormed() && Clusters(fs.geo, chain)
      reads this, fs
    {
      0 < fptr && (btr == 0 || !Stale(btr))
    }

    /** Where the window is not in the way the drive shows the file. */
    lemma Visible(btr: nat, u: View)
      requires fs.Valid() && Placed(fs.geo, fs.view, orgClust, chain, fsize) && AtSector()
      requires fptr / SECTOR_SIZE < |Spots()|
      requires var first, cc := Spots()[fptr / SECTOR_SIZE], RunLength(btr, csect);
               u == if fs.wflag && first <= fs.winsect < first + cc
                    then fs.view[fs.winsect := fs.disk.sectors[fs.winsect]] else fs.view
      ensures fs.geo.Fits(u)
      ensures var j := fptr / SECTOR_SIZE;
              forall k :: j <= k < j + RunLength(btr, csect) ==>
                k < |Spots()| && Spots()[k] < |u| == |fs.disk.sectors| && fs.disk.sectors[Spots()[k]] == u[Spots()[k]]
    {
      hide Table, Sectors, Content, FatFs.Logged, Mul;
      var j := fptr / SECTOR_SIZE;
      assert j == Mul(link, fs.geo.csize) + csect;
      RunShown(fs.geo, chain, link, csect, RunLength(btr, csect), fs.view, fs.disk.sectors,
               fs.winsect, fs.wflag, u);
      var ss := Sectors(fs.geo, chain);
      forall k | j <= k < j + RunLength(btr, csect)
        ensures k < |ss| && ss[k] < |u| == |fs.disk.sectors| && fs.disk.sectors[ss[k]] == u[ss[k]]
      {
      }
    }

    /** `f_read` at a sector boundary with a whole sector or more to go. */
    method ReadWhole(btr: nat, ghost u: View) returns (res: Fresult, d: seq<byte>)
      requires fs.Valid() && Placed(fs.geo, fs.view, orgClust, chain, fsize) && !aborted
      requires AtSector() && SECTOR_SIZE <= btr && fptr + btr <= fsize
      requires fptr / SECTOR_SIZE < |Spots()|
      requires var first, cc := Spots()[fptr / SECTOR_SIZE], RunLength(btr, csect);
               u == if fs.wflag && first <= fs.winsect < first + cc
                    then fs.view[fs.winsect := fs.disk.sectors[fs.winsect]] else fs.view
      modifies `csect, `fptr, `aborted
      ensures fs.Valid()
      ensures fs.disk.reliable ==> res == FrOk
      ensures res == FrOk ==>
                && !aborted && Cursor()
                && |d| == SECTOR_SIZE * RunLength(btr, old(csect)) && 0 < |d| <= btr
                && fptr == old(fptr) + |d|
                && InView(u, Spots()) && fsize <= SECTOR_SIZE * |Spots()|
                && d == Content(u, Spots(), fsize)[old(fptr)..fptr]
                && Settled(btr - |d|)
      ensures res != FrOk ==> res == FrDiskErr && aborted && fptr == old(fptr)
    {
      hide Mul, Table, Sectors, Content, FatFs.Logged, FatFs.Coherent, FatFs.Current, Clusters;
      Visible(btr, u);
      ghost var j := fptr / SECTOR_SIZE;
      SpotsInView(fs.geo, u, chain);
      var ok, secs := ReadDirect(btr);
      d := Flatten(secs);
      res := FrOk;
      if !ok {
        aborted := true;
        res := FrDiskErr;
      } else {
        ContentSectors(u, Spots(), fsize, j, secs);
      }
    }

    /** `f_read` inside a sector: afterwards a dirty window lies behind the cursor. */
    method ReadTail(btr: nat) returns (res: Fresult, d: seq<byte>)
      requires fs.Valid() && Placed(fs.geo, fs.view, orgClust, chain, fsize) && !aborted
      requires InSector() && 0 < btr && fptr + btr <= fsize
      modifies `fptr, `aborted, fs`winsect, fs`wflag, fs`stamps, fs`exempt, fs.win, fs.disk
      ensures fs.Valid()
      ensures fs.disk.reliable ==> res == FrOk
      ensures res == FrOk ==>
                && !aborted && Cursor()
                && 0 < |d| <= btr && fptr == old(fptr) + |d| && d == Data()[old(fptr)..fptr]
                && Settled(btr - |d|)
      ensures res != FrOk ==> res == FrDiskErr && aborted && fptr == old(fptr)
      ensures Later(old(fs.Past()), fs.Past(), {})
    {
      hide Later, Mul, Table, Sectors, Content, FatFs.Logged, FatFs.Coherent, FatFs.Current;
      ghost var at := fptr / SECTOR_SIZE;
      res, d := ReadPart(btr);
      if res != FrOk {
        aborted := true;
      } else if fptr % SECTOR_SIZE == 0 && csect < fs.geo.csize && btr - |d| > 0 {
        RunOfCluster(fs.geo, chain, link, csect, RunLength(btr - |d|, csect));
        BehindRun(fs.geo, fs.view, chain, at, at + 1, RunLength(btr - |d|, csect));
      }
    }

    /** Both `f_read` and `f_write` enter a sector they will use only part of. */
    method EnterSector(ghost sure: bool)
      requires fs.geo.WellFormed() && (sure ==> Clusters(fs.geo, chain) && AtSector())
      requires !sure ==> fs.geo.ValidCluster(currClust) && csect < fs.geo.csize
      modifies `dsect, `csect
      ensures csect == old(csect) + 1 && InDataArea(dsect)
      ensures sure ==> InSector()
    {
      if sure {
        SectorAt(fs.geo, chain, link, csect);
      }
      ClusterInRange(fs.geo, currClust);
      dsect := fs.Clust2Sect(currClust) + csect;
      csect := csect + 1;
    }

    /** `f_read` at a sector boundary: make the next sector current. */
    method ArriveForRead(btr: nat) returns (res: Fresult)
      requires Valid() && !aborted && 0 < btr && fptr + btr <= fsize && fptr % SECTOR_SIZE == 0
      modifies `csect, `currClust, `link, `aborted
      modifies fs`winsect, fs`wflag, fs`stamps, fs`exempt, fs.win, fs.disk
      ensures fs.Valid()
      ensures fs.disk.reliable ==> res == FrOk
      ensures res == FrOk ==>
                && !aborted && AtSector() && fptr / SECTOR_SIZE < |Spots()|
                && old(Shown(btr)) ==
                   (var first, cc := Spots()[fptr / SECTOR_SIZE], RunLength(btr, csect);
                    if fs.wflag && first <= fs.winsect < first + cc
                    then fs.view[fs.winsect := fs.disk.sectors[fs.winsect]] else fs.view)
                && old(FirstRun(btr)) <= RunLength(btr, csect)
                && (0 < old(FirstRun(btr)) ==> old(FirstRun(btr)) == RunLength(btr, csect))
      ensures res != FrOk ==> res == FrDiskErr && aborted
      ensures Later(old(fs.Past()), fs.Past(), {})
    {
      hide Later, Table, Sectors, FatFs.Logged, FatFs.Coherent, FatFs.Current, C.IsChain, Clusters;
      fs.LaterNow();
      res := FrOk;
      if csect >= fs.geo.csize {
        res := NextForRead();
      }
      if res == FrOk {
        SectorAt(fs.geo, chain, link, csect);
        SectorInData(fs.geo, chain, fptr / SECTOR_SIZE);
      }
    }

    /** Only a transfer of whole sectors can meet a stale one. */
    lemma StaleRun(btr: nat)
      requires fs.geo.WellFormed() && Clusters(fs.geo, chain)
      ensures Stale(btr) ==> fptr % SECTOR_SIZE == 0 && SECTOR_SIZE <= btr && 0 < FirstRun(btr)
    {
      hide Sectors;
    }

    /** One turn of the loop of `f_read`, at a sector boundary. */
    method ReadOnward(btr: nat) returns (res: Fresult, d: seq<byte>)
      requires Valid() && !aborted && 0 < btr && fptr + btr <= fsize && fptr % SECTOR_SIZE == 0
      modifies `fptr, `csect, `currClust, `dsect, `link, `aborted
      modifies fs`winsect, fs`wflag, fs`stamps, fs`exempt, fs.win, fs.disk
      ensures fs.Valid()
      ensures fs.disk.reliable ==> res == FrOk
      ensures res == FrOk ==>
                && !aborted && Valid() && 0 < |d| <= btr && fptr == old(fptr) + |d|
                && InView(old(Shown(btr)), Spots()) && fsize <= SECTOR_SIZE * |Spots()|
                && d == Content(old(Shown(btr)), Spots(), fsize)[old(fptr)..fptr]
                && Settled(btr - |d|)
                && (old(Stale(btr)) ==> |d| == SECTOR_SIZE * old(FirstRun(btr)))
      ensures res != FrOk ==> res == FrDiskErr && aborted && fptr == old(fptr)
      ensures Later(old(fs.Past()), fs.Past(), {})
    {
      hide Later, Mul, Table, Sectors, Content, FatFs.Logged;
      hide FatFs.Coherent, FatFs.Current, Settled, C.IsChain, Clusters;
      hide File.Stale, File.FirstRun;
      StaleRun(btr);
      ghost var h, u := fs.Past(), Shown(btr);
      SpotsInView(fs.geo, u, chain);
      res := ArriveForRead(btr);
      ghost var h1 := fs.Past();
      if res != FrOk {
        d := [];
        return;
      }
      if btr / SECTOR_SIZE > 0 {
        res, d := ReadWhole(btr, u);
        return;
      }
      EnterSector(true);
      res, d := ReadTail(btr);
      LaterTrans(h, h1, fs.Past(), {}, {}, {});
    }

    /** One turn of the loop of `f_read`. */
    method ReadStep(btr: nat) returns (res: Fresult, d: seq<byte>)
      requires Valid() && !aborted && 0 < btr && fptr + btr <= fsize
      modifies `fptr, `csect, `currClust, `dsect, `link, `aborted
      modifies fs`winsect, fs`wflag, fs`stamps, fs`exempt, fs.win, fs.disk
      ensures fs.Valid()
      ensures fs.disk.reliable ==> res == FrOk
      ensures res == FrOk ==>
                && !aborted && Valid() && 0 < |d| <= btr && fptr == old(fptr) + |d|
                && InView(old(Shown(btr)), Spots()) && fsize <= SECTOR_SIZE * |Spots()|
                && d == Content(old(Shown(btr)), Spots(), fsize)[old(fptr)..fptr]
                && Settled(btr - |d|)
                && (old(Stale(btr)) ==> |d| == SECTOR_SIZE * old(FirstRun(btr)))
      ensures res != FrOk ==> res == FrDiskErr && aborted && fptr == old(fptr)
      ensures Later(old(fs.Past()), fs.Past(), {})
    {
      hide Later, Mul, Table, Sectors, Content, FatFs.Logged;
      hide FatFs.Coherent, FatFs.Current, Settled, C.IsChain, Clusters;
      hide File.Stale, File.FirstRun;
      if fptr % SECTOR_SIZE == 0 {
        res, d := ReadOnward(btr);
      } else {
        StaleRun(btr);
        SpotsInView(fs.geo, Shown(btr), chain);
        res, d := ReadTail(btr);
      }
    }

    /** Which sector of the file a stale window holds. */
    lemma StaleSpot(btr: nat) returns (k: nat)
      requires Valid() && fptr + btr <= fsize && Stale(btr)
      ensures k < |Spots()| && Spots()[k] == fs.winsect
      ensures fptr <= SECTOR_SIZE * k && SECTOR_SIZE * (k + 1) <= fptr + SECTOR_SIZE * FirstRun(btr)
    {
      hide Table, Sectors, FatFs.Valid;
      var j := fptr / SECTOR_SIZE;
      if fptr == 0 {
        RunOfCluster(fs.geo, chain, 0, 0, FirstRun(btr));
      } else {
        RunOfCluster(fs.geo, chain, link, csect, FirstRun(btr));
      }
      k := j + (fs.winsect - Spots()[j]);
    }

    /** The bytes left to read, up to the `n` asked for. */
    function Available(n: nat): nat
      requires fptr <= fsize
      reads `fptr, `fsize
    {
      if n > fsize - fptr then fsize - fptr else n
    }

    /** The loop of `f_read`. */
    method ReadAll(n: nat) returns (res: Fresult, data: seq<byte>)
      requires Valid() && !aborted && fptr + n <= fsize
      modifies `fptr, `csect, `currClust, `dsect, `link, `aborted
      modifies fs`winsect, fs`wflag, fs`stamps, fs`exempt, fs.win, fs.disk
      ensures fs.Valid()
      ensures fs.disk.reliable ==> res == FrOk
      ensures res == FrOk ==>
                && Valid() && !aborted && fptr == old(fptr) + n
                && InView(old(Shown(n)), Spots()) && fsize <= SECTOR_SIZE * |Spots()|
                && data == Content(old(Shown(n)), Spots(), fsize)[old(fptr)..fptr]
      ensures res != FrOk ==> res == FrDiskErr && aborted
      ensures |data| <= n && fptr == old(fptr) + |data|
      ensures Later(old(fs.Past()), fs.Past(), {})
    {
      hide Later, Mul, Table, Sectors, Content, FatFs.Logged, FatFs.Coherent;
      hide FatFs.Current, Cursor, FirstRun, C.IsChain, Clusters;
      hide File.Stale;
      data := [];
      var btr := n;
      fs.LaterNow();
      ghost var u, end := Shown(btr), fptr + btr;
      SpotsInView(fs.geo, u, chain);
      ghost var stale, behind, w := Stale(btr), fptr + SECTOR_SIZE * FirstRun(btr), fs.winsect;
      ghost var spot := 0;
      SpotsInjective(fs.geo, fs.view, chain);
      if stale {
        spot := StaleSpot(btr);
      }
      res := FrOk;
      while btr > 0
        invariant res == FrOk && 0 <= btr && Valid() && !aborted && fptr + btr == end <= fsize
        invariant Later(old(fs.Past()), fs.Past(), {})
        invariant |data| <= n && fptr == old(fptr) + |data|
        invariant data == Content(u, Spots(), fsize)[old(fptr)..fptr]
        invariant fptr == old(fptr) ==>
                    Stale(btr) == stale && Shown(btr) == u && behind == fptr + SECTOR_SIZE * FirstRun(btr)
        invariant old(fptr) < fptr ==> Settled(btr) && (stale ==> behind <= fptr)
      {
        var d;
        ghost var mid, h := fptr, fs.Past();
        res, d := ReadStep(btr);
        LaterTrans(old(fs.Past()), h, fs.Past(), {}, {}, {});
        if res != FrOk {
          return;
        }
        if mid != old(fptr) && stale {
          ContentBehind(fs.view, Spots(), fsize, spot, old(fs.disk.sectors)[w], mid, fptr);
        }
        Adjacent(Content(u, Spots(), fsize), old(fptr), mid, fptr);
        data := data + d;
        btr := btr - |d|;
      }
    }

    /**
     * `f_read`. `status` is what `validate` found. The bytes are those of the file, with one
     * exception: when the window holds an unwritten whole sector of the file and the transfer
     * starts with a run of whole sectors that covers it, the drive's older content is returned.
     */
    method Read(status: Fresult, n: nat) returns (res: Fresult, data: seq<byte>)
      requires Valid()
      modifies `fptr, `csect, `currClust, `dsect, `link, `aborted
      modifies fs`winsect, fs`wflag, fs`stamps, fs`exempt, fs.win, fs.disk
      ensures fs.Valid()
      ensures status != FrOk ==> res == status
      ensures status == FrOk && old(aborted) ==> res == FrIntErr
      ensures status == FrOk && !old(aborted) && !canRead ==> res == FrDenied
      ensures status == FrOk && !old(aborted) && canRead && fs.disk.reliable ==> res == FrOk
      ensures |data| <= n && fptr == old(fptr) + |data|
      ensures res == FrOk ==>
                && Valid() && !aborted && |data| == (if old(fptr) + n <= fsize then n else fsize - old(fptr))
                && (data == Data()[old(fptr)..fptr] <==>
                      !(old(Stale(Available(n))) &&
                        old(fs.disk.sectors[fs.winsect]) != old(fs.view[fs.winsect])))
      ensures status == FrOk && !old(aborted) && canRead && res != FrOk ==> res == FrDiskErr && aborted
      ensures status != FrOk || old(aborted) || !canRead ==> fptr == old(fptr) && aborted == old(aborted) && data == []
      ensures Later(old(fs.Past()), fs.Past(), {})
    {
      hide Later, Table, Sectors, Content, FatFs.Logged, FatFs.Coherent;
      hide FatFs.Current, Cursor, FirstRun, C.IsChain, Clusters;
      data := [];
      fs.LaterNow();
      if status != FrOk {
        return status, data;
      }
      if aborted {
        return FrIntErr, data;
      }
      if !canRead {
        return FrDenied, data;
      }
      var btr := Available(n);
      ghost var stale, w, x, spot := Stale(btr), fs.winsect, fs.disk.sectors[fs.winsect], 0;
      if stale {
        spot := StaleSpot(btr);
      }
      SpotsInjective(fs.geo, fs.view, chain);
      SpotsInView(fs.geo, fs.view, chain);
      res, data := ReadAll(btr);
      if res == FrOk && stale {
        ContentCovers(fs.view, Spots(), fsize, spot, x, old(fptr), fptr);
      }
    }

    /** While a write is under way the file reaches to its recorded size or to the cursor. */
    ghost function Reach(): nat
      reads `fptr, `fsize
    {
      if fptr > fsize then fptr else fsize
    }

    /** The invariant of `f_write` between two turns, on a reliable drive and a clean table. */
    ghost predicate Writing()
      reads this, fs, fs.win, fs.disk
    {
      && fs.Valid() && fs.disk.reliable && !aborted
      && Placed(fs.geo, fs.view, orgClust, chain, Reach())
      && C.Clean(fs.Tab())
      && Cursor()
    }

    /** The bytes of the file while a write is under way. */
    ghost function Live(): (b: seq<byte>)
      requires Placed(fs.geo, fs.view, orgClust, chain, Reach())
      reads this, fs`view
      ensures |b| == Reach()
    {
      SpotsInView(fs.geo, fs.view, chain);
      Content(fs.view, Spots(), Reach())
    }

    /** The fields of an open file that has not failed are fit for use, whatever the drive does. */
    ghost predicate Steady()
      reads this, fs, fs.win, fs.disk
    {
      && fs.geo.WellFormed() && fs.geo.Fits(fs.view) && fs.Valid()
      && !aborted && fptr < TWO32 && fsize < TWO32 && OrgFits()
      && (if fptr == 0 then csect == 255 else fs.geo.ValidCluster(currClust) && csect <= fs.geo.csize)
      && (fptr % SECTOR_SIZE != 0 ==> InDataArea(dsect))
    }

    /** A failure leaves the abort flag behind. */
    predicate Ended(res: Fresult)
      reads `aborted
    {
      (res == FrOk || res == FrIntErr || res == FrDiskErr) && aborted == (res != FrOk)
    }

    predicate OrgFits()
      reads `orgClust
    {
      orgClust == 0 || fs.geo.ValidCluster(orgClust)
    }

    predicate InDataArea(s: nat) { fs.geo.database <= s < fs.geo.nsects }

    /** Where contents of the medium may run ahead: in the file, or at least only in data. */
    ghost function Own(sure: bool): (r: set<nat>)
      requires fs.geo.WellFormed()
      reads `chain
    {
      if sure && Clusters(fs.geo, chain) then Home(fs.geo, chain)
      else Range(fs.geo.database, fs.geo.nsects - fs.geo.database)
    }

    /**
     * `create_chain` on behalf of this file: the cluster after `at`, stretching the chain at its end.
     * Here and below `sure` says that the drive is reliable and the table clean.
     */
    method ChainAfter(clst: nat, ghost at: nat, ghost sure: bool) returns (r: nat)
      requires fs.Valid()
      requires sure ==> fs.disk.reliable && C.Clean(fs.Tab())
      requires sure ==> Placed(fs.geo, fs.view, orgClust, chain, fsize)
      requires sure ==> (if chain == [] then clst == 0 && at == 0 else at < |chain| && clst == chain[at])
      modifies `chain
      modifies fs`winsect, fs`wflag, fs`stamps, fs`exempt, fs`view, fs`log, fs`freeClust, fs`fsiFlag, fs`lastClust
      modifies fs.win, fs.disk
      ensures fs.Valid()
      ensures r < 2 || r == DISK_ERROR || fs.geo.ValidCluster(r)
      ensures sure ==> C.Clean(fs.Tab())
      ensures sure && r == 0 ==> chain == old(chain) && |chain| <= at + 1 && C.NoFree(fs.Tab())
      ensures sure && r != 0 && at + 1 < |old(chain)| ==> chain == old(chain) && r == chain[at + 1]
      ensures sure && r != 0 && |old(chain)| <= at + 1 ==> fs.geo.ValidCluster(r) && chain == old(chain) + [r]
      ensures sure ==> Extends(fs.geo, old(fs.view), old(chain), fs.view, chain)
      ensures sure ==> OnlyFat(fs.geo, old(fs.view), fs.view)
      ensures sure ==> Clusters(fs.geo, chain) && (chain != [] ==> C.IsChain(fs.Tab(), chain))
      ensures sure ==> (r, fs.Tab(), fs.lastClust) == C.Create(old(fs.Tab()), old(fs.lastClust), clst, fs.EndMark())
      ensures sure && chain == old(chain) && !old(fs.wflag) ==> !fs.wflag
      ensures sure && old(fs.CountOk()) ==> fs.CountOk()
      ensures WentOn(fs.geo, old(fs.Past()), fs.Past(), {})
    {
      hide Table, Sectors, FatFs.Logged, FatFs.Coherent, FatFs.Current, C.IsChain;
      hide C.Search, Clusters, C.Linked, OnlyFat;
      ghost var v, s, t := fs.view, chain, fs.Tab();
      ghost var scl := 0;
      if sure {
        LinkAt(fs.geo, fs.view, chain, at);
        scl := C.SearchFrom(t, fs.lastClust, clst);
        C.SearchAll(t, scl);
      }
      r := fs.CreateChain(clst);
      if sure {
        if r == 0 || at + 1 < |chain| {
          ExtendsSame(fs.geo, v, s, fs.view);
        } else {
          C.SearchHit(t, scl, 1);
          ExtendsLinked(fs.geo, v, s, fs.view, r, fs.EndMark());
          chain := chain + [r];
        }
      }
    }

    /** Table, hint and chain are what making room for `n` bytes leaves of those given. */
    ghost predicate Allocated(t0: C.Table, l0: nat, s0: seq<nat>, n: nat)
      requires fs.geo.WellFormed() && fs.geo.Fits(fs.view)
      reads `chain, fs`view, fs`lastClust
    {
      && 2 <= |t0| && 0 < fs.geo.Bcs()
      && (fs.Tab(), fs.lastClust, chain) == C.Grow(t0, l0, s0, ClustersFor(n, fs.geo.Bcs()), fs.EndMark())
    }

    /** The cursor stands at the end of the room there is, and there is no more to be had. */
    ghost predicate Stuck()
      requires fs.geo.WellFormed() && fs.geo.Fits(fs.view)
      reads `chain, `fptr, fs`view, fs`lastClust
    {
      && C.Create(fs.Tab(), fs.lastClust, C.End(chain), fs.EndMark()).0 < 2
      && fptr == SECTOR_SIZE * Mul(|chain|, fs.geo.csize)
    }

    /** Bytes the file reaches to need no cluster it does not have. */
    lemma AllocatedHere(n: nat)
      requires fs.geo.WellFormed() && fs.geo.Fits(fs.view) && n <= SECTOR_SIZE * Mul(|chain|, fs.geo.csize)
      ensures Allocated(fs.Tab(), fs.lastClust, chain, n)
    {
      hide Table, C.Grow;
      RoomFor(fs.geo, |chain|, n);
    }

    /** What made room for `n` bytes made it for as many more as fit. */
    lemma AllocatedMore(t0: C.Table, l0: nat, s0: seq<nat>, n: nat, m: nat)
      requires fs.geo.WellFormed() && fs.geo.Fits(fs.view) && m <= SECTOR_SIZE * Mul(|chain|, fs.geo.csize)
      requires Allocated(t0, l0, s0, n) && n <= m
      ensures Allocated(t0, l0, s0, m)
    {
      hide Table, C.Grow;
      AllocatedHere(m);
      AllocatedTwice(t0, l0, s0, fs.Tab(), fs.lastClust, chain, n, m);
    }

    /** Making room twice is making it once. */
    lemma AllocatedTwice(t0: C.Table, l0: nat, s0: seq<nat>, t: C.Table, l: nat, s: seq<nat>, n: nat, m: nat)
      requires fs.geo.WellFormed() && fs.geo.Fits(fs.view) && 2 <= |t0| && 0 < fs.geo.Bcs() && n <= m
      requires (t, l, s) == C.Grow(t0, l0, s0, ClustersFor(n, fs.geo.Bcs()), fs.EndMark())
      requires Allocated(t, l, s, m)
      ensures Allocated(t0, l0, s0, m)
    {
      hide Table, C.Grow;
      ClustersForMonotone(n, m, fs.geo.Bcs());
      C.GrowTwice(t0, l0, s0, ClustersFor(n, fs.geo.Bcs()), ClustersFor(m, fs.geo.Bcs()), fs.EndMark());
    }

    /** On a full volume asking for more makes no difference. */
    lemma AllocatedStuck(t0: C.Table, l0: nat, s0: seq<nat>, m: nat)
      requires fs.geo.WellFormed() && fs.geo.Fits(fs.view) && Stuck()
      requires Allocated(t0, l0, s0, fptr) && fptr <= m
      ensures Allocated(t0, l0, s0, m)
    {
      hide Table, C.Grow, C.Create;
      var bcs := fs.geo.Bcs();
      NeedWhole(fs.geo, |chain|);
      ClustersForMonotone(fptr, m, bcs);
      C.GrowStuck(t0, l0, s0, ClustersFor(fptr, bcs), ClustersFor(m, bcs), fs.EndMark());
    }

    /** The window holds sector `j` of the file and has not been written back. */
    ghost predicate Parked(j: nat)
      requires Clusters(fs.geo, chain)
      reads `chain, fs`wflag, fs`winsect
    {
      fs.wflag && j < |Spots()| && fs.winsect == Spots()[j]
    }

    /**
     * What a write of `n` bytes at `p` that stays clear of the end of a sector leaves once `bw` bytes are
     * written: the sector, parked. At the start of a file nothing else reached the medium, if `quiet`.
     */
    ghost predicate ShortDone(p: nat, n: nat, bw: nat, quiet: bool, before: View)
      requires Clusters(fs.geo, chain)
      reads `chain, fs`wflag, fs`winsect, fs.disk
    {
      0 < bw && p % SECTOR_SIZE + n < SECTOR_SIZE ==>
        bw == n && Parked(p / SECTOR_SIZE) && (quiet ==> fs.disk.sectors == before)
    }

    /** Nothing but the write itself will touch the medium: the start of a file, and a clean window. */
    ghost predicate Quiet()
      reads `fptr, `chain, fs`wflag
    {
      fptr == 0 && chain != [] && !fs.wflag
    }

    lemma LongDone(p: nat, n: nat, bw: nat, quiet: bool, before: View)
      requires Clusters(fs.geo, chain) && p % SECTOR_SIZE + n >= SECTOR_SIZE
      ensures ShortDone(p, n, bw, quiet, before)
    {
    }

    lemma NotYet(p: nat, n: nat, bw: nat, quiet: bool, before: View)
      requires Clusters(fs.geo, chain) && ShortDone(p, n, bw, quiet, before) && 0 < bw < n
      ensures p % SECTOR_SIZE + n >= SECTOR_SIZE
    {
    }

    /** `f_write` at a cluster boundary: the next cluster of the file, 0 when none is free. */
    method ClusterForWrite(ghost sure: bool) returns (clst: nat)
      requires Steady() && fptr % SECTOR_SIZE == 0 && csect >= fs.geo.csize
      requires sure ==> Writing()
      modifies `orgClust, `chain
      modifies fs`winsect, fs`wflag, fs`stamps, fs`exempt, fs`view, fs`log, fs`freeClust, fs`fsiFlag, fs`lastClust
      modifies fs.win, fs.disk
      ensures fs.Valid()
      ensures clst == 1 || clst == DISK_ERROR || ((clst == 0 || fs.geo.ValidCluster(clst)) && OrgFits())
      ensures sure ==> clst == 0 || fs.geo.ValidCluster(clst)
      ensures sure ==> C.Clean(fs.Tab())
      ensures sure && old(fs.CountOk()) ==> fs.CountOk()
      ensures sure ==> Extends(fs.geo, old(fs.view), old(chain), fs.view, chain)
      ensures sure ==> OnlyFat(fs.geo, old(fs.view), fs.view) && old(chain) <= chain
      ensures sure ==> Clusters(fs.geo, chain) && (chain != [] ==> C.IsChain(fs.Tab(), chain))
      ensures sure ==> (orgClust == 0 <==> chain == []) && (chain != [] ==> chain[0] == orgClust)
      ensures sure && clst == 0 ==> chain == old(chain) && C.NoFree(fs.Tab())
      ensures sure && clst != 0 && fptr == 0 ==> chain != [] && clst == chain[0]
      ensures sure && clst != 0 && fptr != 0 ==> link + 1 < |chain| && clst == chain[link + 1]
      ensures sure && clst == 0 ==>
                Stuck() && fs.Tab() == old(fs.Tab()) && fs.lastClust == old(fs.lastClust)
      ensures sure && clst != 0 ==> Allocated(old(fs.Tab()), old(fs.lastClust), old(chain), fptr + 1)
      ensures WentOn(fs.geo, old(fs.Past()), fs.Past(), {})
      ensures sure && old(Quiet()) ==> !fs.wflag && fs.disk.sectors == old(fs.disk.sectors)
    {
      hide Table, Sectors, Content, FatFs.Logged, FatFs.Coherent, FatFs.Current, C.IsChain, Extends, OnlyFat;
      hide C.Create, C.Grow, C.Clean, C.NoFree, Clusters, WentOn;
      ghost var t, l := fs.Tab(), fs.lastClust;
      if fptr == 0 {
        FirstAllocated(fs.geo, t, l, chain, fptr, fs.EndMark());
        clst := orgClust;
        if clst == 0 {
          clst := ChainAfter(0, 0, sure);
          orgClust := clst;
        } else {
          if sure {
            ExtendsRefl(fs.geo, fs.view, chain);
            OnlyFatRefl(fs.geo, fs.view);
          }
          fs.NothingYet();
        }
      } else {
        if sure {
          BoundaryLink(fs.geo, |chain|, fptr, link, csect);
          LinkAt(fs.geo, fs.view, chain, link);
          NextAllocated(fs.geo, t, l, chain, link, fptr, fs.EndMark());
        }
        clst := ChainAfter(currClust, link, sure);
      }
    }

    /** `f_write` at a cluster boundary: the same, as the file sees it. */
    method RoomForWrite(ghost sure: bool) returns (clst: nat)
      requires Steady() && fptr % SECTOR_SIZE == 0 && csect >= fs.geo.csize
      requires sure ==> Writing()
      modifies `orgClust, `chain
      modifies fs`winsect, fs`wflag, fs`stamps, fs`exempt, fs`view, fs`log, fs`freeClust, fs`fsiFlag, fs`lastClust
      modifies fs.win, fs.disk
      ensures fs.Valid()
      ensures clst == 1 || clst == DISK_ERROR || ((clst == 0 || fs.geo.ValidCluster(clst)) && OrgFits())
      ensures sure ==> clst == 0 || fs.geo.ValidCluster(clst)
      ensures sure ==> C.Clean(fs.Tab()) && Placed(fs.geo, fs.view, orgClust, chain, Reach())
      ensures sure ==> Live() == old(Live()) && old(chain) <= chain
      ensures sure && old(fs.CountOk()) ==> fs.CountOk()
      ensures sure ==> Extends(fs.geo, old(fs.view), old(chain), fs.view, chain)
      ensures sure && clst == 0 ==> chain == old(chain) && C.NoFree(fs.Tab())
      ensures sure && clst != 0 && fptr == 0 ==> chain != [] && clst == chain[0]
      ensures sure && clst != 0 && fptr != 0 ==> link + 1 < |chain| && clst == chain[link + 1]
      ensures sure && clst == 0 ==>
                Stuck() && fs.Tab() == old(fs.Tab()) && fs.lastClust == old(fs.lastClust)
      ensures sure && clst != 0 ==> Allocated(old(fs.Tab()), old(fs.lastClust), old(chain), fptr + 1)
      ensures WentOn(fs.geo, old(fs.Past()), fs.Past(), {})
      ensures sure && old(Quiet()) ==> !fs.wflag && fs.disk.sectors == old(fs.disk.sectors)
    {
      hide Table, Sectors, Content, FatFs.Logged, FatFs.Coherent, FatFs.Current, C.IsChain, Extends, OnlyFat;
      hide File.Allocated, File.Stuck, File.Cursor, C.Clean, C.NoFree, Clusters, WentOn;
      ghost var v, s := fs.view, chain;
      clst := ClusterForWrite(sure);
      if sure {
        LiveKept(fs.geo, v, s, fs.view, chain, Reach());
      }
    }

    /** `f_write` at a cluster boundary: follow or stretch the chain; `full` when no cluster is free. */
    method NextForWrite(ghost sure: bool) returns (res: Fresult, full: bool)
      requires Steady() && fptr % SECTOR_SIZE == 0 && csect >= fs.geo.csize
      requires sure ==> Writing()
      modifies `orgClust, `currClust, `csect, `link, `chain, `aborted
      modifies fs`winsect, fs`wflag, fs`stamps, fs`exempt, fs`view, fs`log, fs`freeClust, fs`fsiFlag, fs`lastClust
      modifies fs.win, fs.disk
      ensures fs.Valid() && Ended(res)
      ensures res == FrOk ==> OrgFits()
      ensures res == FrOk && !full ==> fs.geo.ValidCluster(currClust) && csect == 0
      ensures full ==> currClust == old(currClust) && csect == old(csect)
      ensures sure ==> res == FrOk
      ensures sure ==> C.Clean(fs.Tab()) && Placed(fs.geo, fs.view, orgClust, chain, Reach())
      ensures sure ==> Live() == old(Live())
      ensures sure && old(fs.CountOk()) ==> fs.CountOk()
      ensures sure ==> Extends(fs.geo, old(fs.view), old(chain), fs.view, chain)
      ensures sure && full ==> C.NoFree(fs.Tab()) && Cursor()
      ensures sure && !full ==> AtSector() && csect == 0
      ensures sure && full ==>
                Stuck() && fs.Tab() == old(fs.Tab()) && fs.lastClust == old(fs.lastClust) && chain == old(chain)
      ensures sure && !full ==> Allocated(old(fs.Tab()), old(fs.lastClust), old(chain), fptr + 1)
      ensures WentOn(fs.geo, old(fs.Past()), fs.Past(), {})
      ensures sure && old(Quiet()) ==> !fs.wflag && fs.disk.sectors == old(fs.disk.sectors)
    {
      hide Table, Sectors, Content, FatFs.Valid, C.IsChain, Extends;
      hide File.Allocated, File.Stuck, C.Clean, C.NoFree, Clusters, WentOn;
      if sure && fptr != 0 {
        BoundaryLink(fs.geo, |chain|, fptr, link, csect);
      }
      var clst := RoomForWrite(sure);
      if clst == 0 {
        return FrOk, true;
      }
      if clst == 1 || clst == DISK_ERROR {
        aborted := true;
        return if clst == 1 then FrIntErr else FrDiskErr, false;
      }
      link := if fptr == 0 then 0 else link + 1;
      currClust := clst;
      csect := 0;
      return FrOk, false;
    }

    /** A run of sectors of the current cluster belongs to the file, or at least lies in data. */
    lemma RunOwned(cc: nat, sure: bool)
      requires fs.geo.WellFormed() && fs.geo.ValidCluster(currClust) && csect + cc <= fs.geo.csize && 0 < cc
      requires sure ==> Clusters(fs.geo, chain) && link < |chain| && currClust == chain[link]
      ensures var sect := fs.geo.ClusterBase(currClust) + csect;
              fs.geo.database <= sect && sect + cc <= fs.geo.nsects && Range(sect, cc) <= Own(sure)
    {
      hide Sectors, Range, Home;
      ClusterInRange(fs.geo, currClust);
      if sure {
        RunOfCluster(fs.geo, chain, link, csect, cc);
        RunAtHome(fs.geo, chain, Mul(link, fs.geo.csize) + csect, cc);
      } else {
        RangeInData(fs.geo, fs.geo.ClusterBase(currClust) + csect, cc);
      }
    }

    /** `f_write`: the direct transfer. */
    method Transfer(sect: nat, d: seq<Sector>, ghost sure: bool) returns (res: Fresult)
      requires fs.Valid() && !aborted && fs.geo.WellFormed() && d != []
      requires fs.geo.database <= sect && sect + |d| <= fs.geo.nsects && Range(sect, |d|) <= Own(sure)
      modifies `aborted
      modifies fs`wflag, fs`stamps, fs`exempt, fs`view, fs`log, fs.win, fs.disk
      ensures fs.Shaken() && Ended(res)
      ensures fs.disk.reliable ==> res == FrOk
      ensures res == FrOk ==> fs.Valid() && sect + |d| <= |old(fs.view)| && fs.view == Overlay(old(fs.view), sect, d)
      ensures WentOn(fs.geo, old(fs.Past()), fs.Past(), Own(sure))
    {
      hide FatFs.Logged, FatFs.Coherent, FatFs.Current, FatFs.Shaken, Overlay, WentOn, Range, File.Own;
      ghost var h := fs.Past();
      var ok := fs.WriteThrough(sect, d);
      WentOnWider(fs.geo, h, fs.Past(), Range(sect, |d|), Own(sure));
      res := FrOk;
      if !ok {
        aborted := true;
        res := FrDiskErr;
      }
    }

    /** `f_write`: whole sectors straight to the drive, at most to the end of the cluster. */
    method WriteWhole(buff: seq<byte>, ghost sure: bool) returns (res: Fresult, wcnt: nat)
      requires fs.Valid() && !aborted && fs.geo.ValidCluster(currClust) && csect < fs.geo.csize
      requires fptr % SECTOR_SIZE == 0 && SECTOR_SIZE <= |buff| && fptr + |buff| < TWO32
      requires sure ==> fs.disk.reliable && Placed(fs.geo, fs.view, orgClust, chain, Reach())
      requires sure ==> AtSector()
      modifies `csect, `fptr, `aborted
      modifies fs`wflag, fs`stamps, fs`exempt, fs`view, fs`log, fs.win, fs.disk
      ensures fs.Shaken() && Ended(res)
      ensures res != FrOk ==> fptr == old(fptr)
      ensures res == FrOk ==> fs.Valid() && csect <= fs.geo.csize && fptr % SECTOR_SIZE == 0
      ensures res == FrOk ==> 0 < wcnt <= |buff| && fptr == old(fptr) + wcnt
      ensures WentOn(fs.geo, old(fs.Past()), fs.Past(), Own(sure))
      ensures sure ==> res == FrOk
      ensures sure ==> Cursor()
      ensures sure ==> Stored(fs.geo, orgClust, chain, old(fs.view), old(Reach()), fs.view, Reach(),
                              old(fptr), buff[..wcnt])
    {
      hide Mul, Table, Sectors, Content, FatFs.Valid, FatFs.Shaken, C.IsChain, Extends, Overlay, Clusters;
      hide Chunks, Overwrite, Stored, WentOn, Range, File.RunLength, File.Own;
      fs.Standing();
      var cc := RunLength(|buff|, csect);
      wcnt := SECTOR_SIZE * cc;
      RunOwned(cc, sure);
      if sure {
        RunReady(fs.geo, fs.view, orgClust, chain, Reach(), link, csect, cc, buff[..wcnt]);
      }
      var sect := fs.Clust2Sect(currClust) + csect;
      res := Transfer(sect, Chunks(buff[..wcnt]), sure);
      if res != FrOk {
        return res, 0;
      }
      PastSectors(fptr, cc);
      csect := csect + cc;
      fptr := fptr + wcnt;
    }

    /** `f_write`: part of a sector the file already reaches into, through the window. */
    method WriteTail(buff: seq<byte>, ghost sure: bool) returns (res: Fresult, wcnt: nat)
      requires fs.Valid() && !aborted && InDataArea(dsect) && 0 < |buff| && fptr + |buff| < TWO32
      requires sure ==> fs.disk.reliable
      requires sure ==> Placed(fs.geo, fs.view, orgClust, chain, Reach())
      requires sure ==> InSector()
      modifies `fptr, `aborted
      modifies fs`winsect, fs`wflag, fs`stamps, fs`exempt, fs`view, fs`log, fs.win, fs.disk
      ensures fs.Valid() && Ended(res)
      ensures res != FrOk ==> fptr == old(fptr)
      ensures res == FrOk ==> 0 < wcnt <= |buff| && fptr == old(fptr) + wcnt
      ensures sure ==> res == FrOk
      ensures sure ==> Cursor()
      ensures sure ==> Stored(fs.geo, orgClust, chain, old(fs.view), old(Reach()), fs.view, Reach(),
                              old(fptr), buff[..wcnt])
      ensures WentOn(fs.geo, old(fs.Past()), fs.Past(), {})
      ensures sure ==> Parked(old(fptr) / SECTOR_SIZE)
      ensures sure && old(fptr) % SECTOR_SIZE + |buff| < SECTOR_SIZE ==> wcnt == |buff|
      ensures sure && !old(fs.wflag) ==> fs.disk.sectors == old(fs.disk.sectors)
    {
      hide Mul, Table, Sectors, Content, FatFs.Logged, FatFs.Coherent, FatFs.Current, C.IsChain, Extends, Clusters;
      hide Overwrite, Stored, Patch, WentOn, FatFs.Valid;
      fs.Standing();
      var o := fptr % SECTOR_SIZE;
      wcnt := SECTOR_SIZE - o;
      if wcnt > |buff| {
        wcnt := |buff|;
      }
      if sure {
        SectorInData(fs.geo, chain, fptr / SECTOR_SIZE);
        PartStored(fs.geo, fs.view, orgClust, chain, Reach(), fptr / SECTOR_SIZE, o, buff[..wcnt]);
      }
      res := fs.EditAt(dsect, o, buff[..wcnt]);
      if res != FrOk {
        aborted := true;
        return;
      }
      fptr := fptr + wcnt;
    }

    /** `f_write`: the first part of a sector at the growing edge, without reading the sector. */
    method WriteFresh(buff: seq<byte>, ghost sure: bool) returns (res: Fresult, wcnt: nat)
      requires fs.Valid() && !aborted && InDataArea(dsect) && 0 < |buff| < SECTOR_SIZE && fptr + |buff| < TWO32
      requires sure ==> fs.disk.reliable
      requires sure ==> Placed(fs.geo, fs.view, orgClust, chain, Reach())
      requires sure ==> InSector() && fptr % SECTOR_SIZE == 0 && fsize <= fptr
      modifies `fptr, `aborted
      modifies fs`winsect, fs`wflag, fs`stamps, fs`exempt, fs`view, fs`log, fs.win, fs.disk
      ensures fs.Valid() && Ended(res)
      ensures res != FrOk ==> fptr == old(fptr)
      ensures res == FrOk ==> 0 < wcnt <= |buff| && fptr == old(fptr) + wcnt
      ensures sure ==> res == FrOk
      ensures sure ==> Cursor()
      ensures sure ==> Stored(fs.geo, orgClust, chain, old(fs.view), old(Reach()), fs.view, Reach(),
                              old(fptr), buff[..wcnt])
      ensures WentOn(fs.geo, old(fs.Past()), fs.Past(), {})
      ensures sure ==> Parked(old(fptr) / SECTOR_SIZE) && wcnt == |buff|
      ensures sure && !old(fs.wflag) ==> fs.disk.sectors == old(fs.disk.sectors)
    {
      hide Table, Sectors, Content, FatFs.Logged, FatFs.Coherent, FatFs.Current, C.IsChain, Extends, Clusters;
      hide Overwrite, Stored, Patch, WentOn;
      wcnt := |buff|;
      ghost var v, n, j, h := fs.view, Reach(), fptr / SECTOR_SIZE, fs.Past();
      fs.NothingYet();
      if sure {
        SectorInData(fs.geo, chain, j);
      }
      res := fs.PokeFresh(dsect, buff[..wcnt]);
      if res != FrOk {
        WentOnQuietly(fs.geo, h, fs.Past(), {});
        aborted := true;
        return;
      }
      ghost var junk: Sector :| fs.view == v[dsect := Patch(junk, 0, buff[..wcnt])];
      fs.OneStore(h, h);
      if sure {
        FreshStored(fs.geo, v, orgClust, chain, n, j, junk, buff[..wcnt]);
      }
      fptr := fptr + wcnt;
    }

    /** `f_write` at a sector boundary: make the next sector current. */
    method ArriveForWrite(ghost sure: bool) returns (res: Fresult, full: bool)
      requires Steady() && fptr % SECTOR_SIZE == 0
      requires sure ==> Writing()
      modifies `orgClust, `currClust, `csect, `link, `chain, `aborted
      modifies fs`winsect, fs`wflag, fs`stamps, fs`exempt, fs`view, fs`log, fs`freeClust, fs`fsiFlag, fs`lastClust
      modifies fs.win, fs.disk
      ensures fs.Valid() && Ended(res)
      ensures res == FrOk ==> OrgFits()
      ensures res == FrOk && !full ==> fs.geo.ValidCluster(currClust) && csect < fs.geo.csize
      ensures full ==> currClust == old(currClust) && csect == old(csect)
      ensures sure ==> res == FrOk
      ensures sure ==> C.Clean(fs.Tab()) && Placed(fs.geo, fs.view, orgClust, chain, Reach())
      ensures sure ==> Live() == old(Live())
      ensures sure && old(fs.CountOk()) ==> fs.CountOk()
      ensures sure ==> Extends(fs.geo, old(fs.view), old(chain), fs.view, chain)
      ensures sure && full ==> C.NoFree(fs.Tab()) && Cursor()
      ensures sure && !full ==> AtSector()
      ensures sure && full ==>
                Stuck() && fs.Tab() == old(fs.Tab()) && fs.lastClust == old(fs.lastClust) && chain == old(chain)
      ensures sure && !full ==> Allocated(old(fs.Tab()), old(fs.lastClust), old(chain), fptr + 1)
      ensures WentOn(fs.geo, old(fs.Past()), fs.Past(), {})
      ensures sure && old(Quiet()) ==> !fs.wflag && fs.disk.sectors == old(fs.disk.sectors)
    {
      hide Table, Sectors, Content, FatFs.Logged, FatFs.Coherent, FatFs.Current, C.IsChain, Extends, Clusters;
      hide C.Create, C.Grow, WentOn;
      res, full := FrOk, false;
      ghost var h := fs.Past();
      fs.NothingYet();
      if csect >= fs.geo.csize {
        res, full := NextForWrite(sure);
        if res != FrOk || full {
          return;
        }
      } else if sure {
        ExtendsRefl(fs.geo, fs.view, chain);
        RoomAt(fs.geo, |chain|, fptr, link, csect);
      }
      if fs.winsect == dsect {
        ghost var h1 := fs.Past();
        fs.NothingYet();
        res := fs.MoveWindow(0);
        WentOnQuietly(fs.geo, h1, fs.Past(), {});
        WentOnTrans(fs.geo, h, h1, fs.Past(), {}, {}, {});
        if res != FrOk {
          aborted := true;
        }
      }
    }

    /** `f_write` with the next sector current: a direct transfer, a fresh sector or part of an old one. */
    method WriteBytes(buff: seq<byte>, ghost sure: bool) returns (res: Fresult, wcnt: nat)
      requires fs.Valid() && !aborted && fs.geo.ValidCluster(currClust) && csect < fs.geo.csize
      requires fptr % SECTOR_SIZE == 0 && 0 < |buff| && fptr + |buff| < TWO32
      requires sure ==> fs.disk.reliable && Placed(fs.geo, fs.view, orgClust, chain, Reach())
      requires sure ==> AtSector()
      modifies `fptr, `csect, `dsect, `aborted
      modifies fs`winsect, fs`wflag, fs`stamps, fs`exempt, fs`view, fs`log, fs.win, fs.disk
      ensures fs.Shaken() && Ended(res)
      ensures res != FrOk ==> fptr == old(fptr)
      ensures res == FrOk ==> fs.Valid() && csect <= fs.geo.csize && (fptr % SECTOR_SIZE != 0 ==> InDataArea(dsect))
      ensures res == FrOk ==> 0 < wcnt <= |buff| && fptr == old(fptr) + wcnt
      ensures WentOn(fs.geo, old(fs.Past()), fs.Past(), Own(sure))
      ensures sure ==> res == FrOk
      ensures sure ==> Cursor()
      ensures sure ==> Stored(fs.geo, orgClust, chain, old(fs.view), old(Reach()), fs.view, Reach(),
                              old(fptr), buff[..wcnt])
      ensures sure && |buff| < SECTOR_SIZE ==>
                && wcnt == |buff| && Parked(old(fptr) / SECTOR_SIZE)
                && (!old(fs.wflag) ==> fs.disk.sectors == old(fs.disk.sectors))
    {
      hide Table, Sectors, Content, FatFs.Logged, FatFs.Coherent, FatFs.Current, C.IsChain, Extends, Clusters, Stored;
      hide WentOn;
      ghost var h := fs.Past();
      if |buff| / SECTOR_SIZE > 0 {
        res, wcnt := WriteWhole(buff, sure);
        return;
      }
      EnterSector(sure);
      if fptr >= fsize {
        res, wcnt := WriteFresh(buff, sure);
      } else {
        res, wcnt := WriteTail(buff, sure);
      }
      WentOnWider(fs.geo, h, fs.Past(), {}, Own(sure));
    }

    /** `f_write` with the next sector current: room for one more byte is room for all of them. */
    method WriteInRoom(buff: seq<byte>, ghost t0: C.Table, ghost l0: nat, ghost s0: seq<nat>, ghost sure: bool)
      returns (res: Fresult, wcnt: nat)
      requires fs.Valid() && !aborted && fs.geo.ValidCluster(currClust) && csect < fs.geo.csize
      requires fptr % SECTOR_SIZE == 0 && 0 < |buff| && fptr + |buff| < TWO32
      requires sure ==> fs.disk.reliable && Placed(fs.geo, fs.view, orgClust, chain, Reach())
      requires sure ==> AtSector()
      requires sure ==> Allocated(t0, l0, s0, fptr + 1)
      modifies `fptr, `csect, `dsect, `aborted
      modifies fs`winsect, fs`wflag, fs`stamps, fs`exempt, fs`view, fs`log, fs.win, fs.disk
      ensures fs.Shaken() && Ended(res)
      ensures res != FrOk ==> fptr == old(fptr)
      ensures res == FrOk ==> fs.Valid() && csect <= fs.geo.csize && (fptr % SECTOR_SIZE != 0 ==> InDataArea(dsect))
      ensures res == FrOk ==> 0 < wcnt <= |buff| && fptr == old(fptr) + wcnt
      ensures WentOn(fs.geo, old(fs.Past()), fs.Past(), Own(sure))
      ensures sure ==> res == FrOk
      ensures sure ==> Cursor()
      ensures sure ==> Stored(fs.geo, orgClust, chain, old(fs.view), old(Reach()), fs.view, Reach(),
                              old(fptr), buff[..wcnt])
      ensures sure ==> Allocated(t0, l0, s0, fptr)
      ensures sure && |buff| < SECTOR_SIZE ==>
                && wcnt == |buff| && Parked(old(fptr) / SECTOR_SIZE)
                && (!old(fs.wflag) ==> fs.disk.sectors == old(fs.disk.sectors))
    {
      hide Table, Sectors, Content, FatFs.Valid, C.IsChain, C.Grow, Extends, Clusters, Overwrite, AtSector, Cursor;
      hide WentOn;
      res, wcnt := WriteBytes(buff, sure);
      if sure {
        AllocatedMore(t0, l0, s0, old(fptr) + 1, fptr);
      }
    }

    /** One turn of the loop of `f_write`, at a sector boundary. */
    method WriteOnward(buff: seq<byte>, ghost sure: bool) returns (res: Fresult, full: bool, wcnt: nat)
      requires Steady() && fptr % SECTOR_SIZE == 0 && 0 < |buff| && fptr + |buff| < TWO32
      requires sure ==> Writing()
      modifies `fptr, `orgClust, `currClust, `csect, `dsect, `link, `chain, `aborted
      modifies fs`winsect, fs`wflag, fs`stamps, fs`exempt, fs`view, fs`log
      modifies fs`freeClust, fs`fsiFlag, fs`lastClust, fs.win, fs.disk
      ensures fs.Shaken() && Ended(res)
      ensures res != FrOk ==> fptr == old(fptr)
      ensures res == FrOk ==> Steady() && wcnt <= |buff| && fptr == old(fptr) + wcnt
      ensures res == FrOk ==> if full then wcnt == 0 else 0 < wcnt
      ensures WentOn(fs.geo, old(fs.Past()), fs.Past(), Own(sure))
      ensures sure ==> res == FrOk
      ensures sure ==> Writing()
      ensures sure && full ==> C.NoFree(fs.Tab())
      ensures sure ==> old(fptr) <= |old(Live())| && Live() == Overwrite(old(Live()), old(fptr), buff[..wcnt])
      ensures sure && old(fs.CountOk()) ==> fs.CountOk()
      ensures sure ==> Extends(fs.geo, old(fs.view), old(chain), fs.view, chain)
      ensures sure && full ==>
                Stuck() && fs.Tab() == old(fs.Tab()) && fs.lastClust == old(fs.lastClust) && chain == old(chain)
      ensures sure && !full ==> Allocated(old(fs.Tab()), old(fs.lastClust), old(chain), fptr)
      ensures sure ==> ShortDone(old(fptr), |buff|, wcnt, old(Quiet()), old(fs.disk.sectors))
    {
      hide Mul, Table, Sectors, Content, FatFs.Logged, FatFs.Coherent;
      hide FatFs.Current, C.IsChain, Extends, Clusters, Overwrite;
      hide File.Allocated, File.Stuck, WentOn;
      ghost var h := fs.Past();
      wcnt := 0;
      ghost var t, l, s0 := fs.Tab(), fs.lastClust, chain;
      res, full := ArriveForWrite(sure);
      ghost var h1 := fs.Past();
      if res != FrOk || full {
        WentOnWider(fs.geo, h, h1, {}, Own(sure));
        if sure {
          OverwriteNone(Live(), fptr);
        }
        return;
      }
      ghost var v, s := fs.view, chain;
      res, wcnt := WriteInRoom(buff, t, l, s0, sure);
      WentOnTrans(fs.geo, h, h1, fs.Past(), {}, Own(sure), Own(sure));
      if sure {
        ExtendsTrans(fs.geo, old(fs.view), old(chain), v, s, fs.view, chain);
      }
    }

    /** One turn of the loop of `f_write`, inside a sector. */
    method WriteInside(buff: seq<byte>, ghost sure: bool) returns (res: Fresult, wcnt: nat)
      requires Steady() && fptr % SECTOR_SIZE != 0 && 0 < |buff| && fptr + |buff| < TWO32
      requires sure ==> Writing()
      modifies `fptr, `orgClust, `currClust, `csect, `dsect, `link, `chain, `aborted
      modifies fs`winsect, fs`wflag, fs`stamps, fs`exempt, fs`view, fs`log
      modifies fs`freeClust, fs`fsiFlag, fs`lastClust, fs.win, fs.disk
      ensures fs.Shaken() && Ended(res)
      ensures res != FrOk ==> fptr == old(fptr)
      ensures res == FrOk ==> Steady() && wcnt <= |buff| && fptr == old(fptr) + wcnt
      ensures res == FrOk ==> 0 < wcnt
      ensures WentOn(fs.geo, old(fs.Past()), fs.Past(), Own(sure))
      ensures sure ==> res == FrOk
      ensures sure ==> Writing()
      ensures sure ==> old(fptr) <= |old(Live())| && Live() == Overwrite(old(Live()), old(fptr), buff[..wcnt])
      ensures sure && old(fs.CountOk()) ==> fs.CountOk()
      ensures sure ==> Extends(fs.geo, old(fs.view), old(chain), fs.view, chain)
      ensures sure ==> Allocated(old(fs.Tab()), old(fs.lastClust), old(chain), fptr)
      ensures sure ==> ShortDone(old(fptr), |buff|, wcnt, old(Quiet()), old(fs.disk.sectors))
    {
      hide Mul, Table, Sectors, Content, FatFs.Logged, FatFs.Coherent;
      hide FatFs.Current, C.IsChain, Extends, Clusters, Overwrite;
      hide File.Allocated, WentOn;
      ghost var h := fs.Past();
      res, wcnt := WriteTail(buff, sure);
      if sure {
        AllocatedHere(fptr);
      }
      WentOnWider(fs.geo, h, fs.Past(), {}, Own(sure));
    }

    /** One turn of the loop of `f_write`; `full` when the volume has no free cluster left. */
    method WriteStep(buff: seq<byte>, ghost sure: bool) returns (res: Fresult, full: bool, wcnt: nat)
      requires Steady() && 0 < |buff| && fptr + |buff| < TWO32
      requires sure ==> Writing()
      modifies `fptr, `orgClust, `currClust, `csect, `dsect, `link, `chain, `aborted
      modifies fs`winsect, fs`wflag, fs`stamps, fs`exempt, fs`view, fs`log
      modifies fs`freeClust, fs`fsiFlag, fs`lastClust, fs.win, fs.disk
      ensures fs.Shaken() && Ended(res)
      ensures res != FrOk ==> fptr == old(fptr)
      ensures res == FrOk ==> Steady() && wcnt <= |buff| && fptr == old(fptr) + wcnt
      ensures res == FrOk ==> if full then wcnt == 0 else 0 < wcnt
      ensures WentOn(fs.geo, old(fs.Past()), fs.Past(), Own(sure))
      ensures sure ==> res == FrOk
      ensures sure ==> Writing()
      ensures sure && full ==> C.NoFree(fs.Tab())
      ensures sure ==> old(fptr) <= |old(Live())| && Live() == Overwrite(old(Live()), old(fptr), buff[..wcnt])
      ensures sure && old(fs.CountOk()) ==> fs.CountOk()
      ensures sure ==> Extends(fs.geo, old(fs.view), old(chain), fs.view, chain)
      ensures sure && full ==>
                Stuck() && fs.Tab() == old(fs.Tab()) && fs.lastClust == old(fs.lastClust) && chain == old(chain)
      ensures sure && !full ==> Allocated(old(fs.Tab()), old(fs.lastClust), old(chain), fptr)
      ensures sure ==> ShortDone(old(fptr), |buff|, wcnt, old(Quiet()), old(fs.disk.sectors))
    {
      hide Table, Sectors, Content, FatFs.Valid, C.IsChain, Extends, Clusters, Overwrite, Cursor, C.Clean;
      hide File.Allocated, File.Stuck, File.ShortDone, WentOn;
      full := false;
      if fptr % SECTOR_SIZE == 0 {
        res, full, wcnt := WriteOnward(buff, sure);
      } else {
        res, wcnt := WriteInside(buff, sure);
      }
    }

    /** Everything `f_write` started from. */
    ghost function Outset(sure: bool): (b: Before)
      requires Steady() && (sure ==> Writing())
      reads this, fs, fs.win, fs.disk
    {
      Before(fptr, if sure then Live() else [], fs.view, chain, fs.Past(), fs.Tab(), fs.lastClust,
             fs.CountOk(), Quiet(), fs.disk.sectors)
    }

    /** `bw` of the bytes are written. */
    ghost predicate Underway(b: Before, buff: seq<byte>, bw: nat)
      reads this, fs, fs.win, fs.disk
    {
      && Writing() && bw <= |buff| && fptr == b.p + bw
      && b.p <= |b.live| && Live() == Overwrite(b.live, b.p, buff[..bw])
      && (b.counted ==> fs.CountOk())
      && Extends(fs.geo, b.view, b.chain, fs.view, chain)
      && Allocated(b.table, b.hint, b.chain, fptr)
      && ShortDone(b.p, |buff|, bw, b.quiet, b.medium)
      && WentOn(fs.geo, b.past, fs.Past(), Home(fs.geo, chain))
    }

    lemma SettingOut(buff: seq<byte>, sure: bool)
      requires Steady() && (sure ==> Writing())
      ensures fs.Shaken() && WentOn(fs.geo, fs.Past(), fs.Past(), Own(sure))
      ensures sure ==> Underway(Outset(true), buff, 0)
    {
      hide Table, Sectors, Content, FatFs.Valid, C.IsChain, Extends, Clusters, Overwrite, Cursor, C.Clean;
      hide C.Create, C.Grow, C.NoFree, FatFs.EndMark, WentOn, FatFs.Shaken;
      fs.NothingYet();
      fs.Standing();
      WentOnWider(fs.geo, fs.Past(), fs.Past(), {}, Own(sure));
      if sure {
        OverwriteNone(Live(), fptr);
        ExtendsRefl(fs.geo, fs.view, chain);
        AllocatedHere(fptr);
      }
    }

    /** Room for what was written, when that is everything or nothing more fits, is room for everything. */
    lemma RoomForAll(b: Before, buff: seq<byte>, bw: nat)
      requires Underway(b, buff, bw) && (bw == |buff| || Stuck())
      ensures Allocated(b.table, b.hint, b.chain, b.p + |buff|)
    {
      hide Table, Sectors, Content, FatFs.Valid, C.IsChain, Extends, Clusters, Overwrite, Cursor, C.Clean;
      hide C.Create, C.Grow, C.NoFree, File.Stuck, File.ShortDone, FatFs.EndMark, WentOn;
      if bw < |buff| {
        AllocatedStuck(b.table, b.hint, b.chain, b.p + |buff|);
      }
    }

    /** The loop of `f_write`. */
    method WriteAll(buff: seq<byte>, ghost sure: bool) returns (res: Fresult, bw: nat)
      requires Steady() && fptr + |buff| < TWO32
      requires sure ==> Writing()
      modifies `fptr, `orgClust, `currClust, `csect, `dsect, `link, `chain, `aborted
      modifies fs`winsect, fs`wflag, fs`stamps, fs`exempt, fs`view, fs`log
      modifies fs`freeClust, fs`fsiFlag, fs`lastClust, fs.win, fs.disk
      ensures fs.Shaken() && Ended(res)
      ensures bw <= |buff| && fptr == old(fptr) + bw
      ensures res == FrOk ==> Steady()
      ensures WentOn(fs.geo, old(fs.Past()), fs.Past(), Own(sure))
      ensures sure ==> res == FrOk && Underway(old(Outset(true)), buff, bw)
      ensures sure && bw < |buff| ==> Stuck() && C.NoFree(fs.Tab())
      ensures sure ==> Allocated(old(fs.Tab()), old(fs.lastClust), old(chain), old(fptr) + |buff|)
    {
      hide Table, Sectors, Content, FatFs.Valid, C.IsChain, Extends, Clusters, Overwrite, Cursor, C.Clean;
      hide C.Create, C.Grow, C.NoFree, File.Stuck, File.ShortDone, FatFs.EndMark, WentOn;
      hide FatFs.Shaken, File.Underway, File.Own, File.Allocated;
      res, bw := FrOk, 0;
      ghost var b := Outset(sure);
      SettingOut(buff, sure);
      while bw < |buff|
        invariant res == FrOk && Steady() && bw <= |buff| && fptr == b.p + bw
        invariant fs.Shaken() && WentOn(fs.geo, b.past, fs.Past(), Own(sure))
        invariant sure ==> Underway(b, buff, bw)
        invariant sure && bw == 0 ==> Quiet() == b.quiet && fs.disk.sectors == b.medium
      {
        var full, wcnt;
        res, full, wcnt := WriteTurn(b, buff, bw, sure);
        if res != FrOk {
          return;
        }
        bw := bw + wcnt;
        if full {
          break;
        }
      }
      if sure {
        RoomForAll(b, buff, bw);
      }
    }

    /** One turn of the loop of `f_write`, seen from where it set out. */
    method WriteTurn(ghost b: Before, buff: seq<byte>, bw: nat, ghost sure: bool)
      returns (res: Fresult, full: bool, wcnt: nat)
      requires Steady() && bw < |buff| && fptr == b.p + bw && b.p + |buff| < TWO32
      requires WentOn(fs.geo, b.past, fs.Past(), Own(sure))
      requires sure ==> Underway(b, buff, bw)
      requires sure && bw == 0 ==> Quiet() == b.quiet && fs.disk.sectors == b.medium
      modifies `fptr, `orgClust, `currClust, `csect, `dsect, `link, `chain, `aborted
      modifies fs`winsect, fs`wflag, fs`stamps, fs`exempt, fs`view, fs`log
      modifies fs`freeClust, fs`fsiFlag, fs`lastClust, fs.win, fs.disk
      ensures fs.Shaken() && Ended(res)
      ensures WentOn(fs.geo, b.past, fs.Past(), Own(sure))
      ensures res == FrOk ==> Steady() && bw + wcnt <= |buff| && fptr == b.p + bw + wcnt
      ensures res == FrOk ==> if full then wcnt == 0 else 0 < wcnt
      ensures res != FrOk ==> fptr == old(fptr)
      ensures sure ==> res == FrOk && Underway(b, buff, bw + wcnt)
      ensures sure && full ==> Stuck() && C.NoFree(fs.Tab())
    {
      hide Table, Sectors, Content, FatFs.Valid, C.IsChain, Extends, Clusters, Overwrite, Cursor, C.Clean;
      hide C.Create, C.Grow, C.NoFree, File.Stuck, File.ShortDone, FatFs.EndMark, WentOn;
      ghost var v, s, t, l, p, h := fs.view, chain, fs.Tab(), fs.lastClust, fptr, fs.Past();
      if 0 < bw {
        if sure {
          NotYet(b.p, |buff|, bw, b.quiet, b.medium);
        }
      } else {
        assert buff[bw..] == buff;
      }
      res, full, wcnt := WriteStep(buff[bw..], sure);
      if !sure {
        WentOnTrans(fs.geo, b.past, h, fs.Past(), Own(sure), Own(sure), Own(sure));
      } else {
        TurnsJoin(fs.geo, b.view, b.chain, b.past, v, s, h, fs.view, chain, fs.Past());
        WrittenMore(b.live, b.p, buff, bw, wcnt);
        if 0 < bw {
          LongDone(b.p, |buff|, bw + wcnt, b.quiet, b.medium);
        }
        if !full {
          AllocatedTwice(b.table, b.hint, b.chain, t, l, s, p, fptr);
        }
      }
    }

    /** How much of `n` bytes `f_write` sets out to write: nothing when the size would wrap around. */
    function Asked(n: nat): (r: nat)
      requires fsize < TWO32 && n < TWO32
      reads `fsize
      ensures r == if fsize + n < TWO32 then n else 0
    {
      if (fsize + n) % TWO32 < fsize then 0 else n
    }

    /** The drive does not fail, the table holds no reserved entries, and the file is intact. */
    ghost predicate Sound()
      reads this, fs, fs.win, fs.disk
    {
      Valid() && fs.disk.reliable && C.Clean(fs.Tab())
    }

    /** A file ready for use, or one given up after a failure. */
    ghost predicate Usable()
      reads this, fs, fs.win, fs.disk
    {
      fs.Valid() && (aborted || (Steady() && fptr <= fsize))
    }

    /** An intact file is usable. */
    lemma Fit()
      requires Valid()
      ensures Usable()
    {
      hide Table, Sectors, FatFs.Valid, C.IsChain;
      OrgBounded(fs.geo, chain, orgClust);
      if fptr % SECTOR_SIZE != 0 {
        SectorInData(fs.geo, chain, fptr / SECTOR_SIZE);
      }
    }

    /** `f_write` after its checks. */
    method WriteOut(buff: seq<byte>, ghost sure: bool) returns (res: Fresult, bw: nat)
      requires Steady() && fptr <= fsize && |buff| < TWO32
      requires sure ==> Sound()
      modifies `fptr, `fsize, `written, `orgClust, `currClust, `csect, `dsect, `link, `chain, `aborted
      modifies fs`winsect, fs`wflag, fs`stamps, fs`exempt, fs`view, fs`log
      modifies fs`freeClust, fs`fsiFlag, fs`lastClust, fs.win, fs.disk
      ensures fs.Shaken() && Ended(res)
      ensures bw <= |buff| && fptr == old(fptr) + bw
      ensures res == FrOk ==> Usable() && fsize == Max(old(fsize), fptr) && written
      ensures res != FrOk ==> fsize == old(fsize) && written == old(written)
      ensures WentOn(fs.geo, old(fs.Past()), fs.Past(), Own(sure))
      ensures sure ==> res == FrOk && Sound()
      ensures sure ==> Data() == Overwrite(old(Data()), old(fptr), buff[..bw])
      ensures sure && old(fs.CountOk()) ==> fs.CountOk()
      ensures sure ==> Extends(fs.geo, old(fs.view), old(chain), fs.view, chain)
      ensures sure && bw < old(Asked(|buff|)) ==> C.NoFree(fs.Tab()) && Stuck()
      ensures sure ==>
                && bw <= old(Asked(|buff|))
                && Allocated(old(fs.Tab()), old(fs.lastClust), old(chain), old(fptr) + old(Asked(|buff|)))
      ensures sure ==> ShortDone(old(fptr), |buff|, bw, old(Quiet()), old(fs.disk.sectors))
    {
      hide Table, Sectors, Content, FatFs.Valid, C.IsChain, Extends, Clusters, Overwrite, Cursor, C.Clean;
      hide C.NoFree, File.Allocated, File.Stuck, File.Parked, WentOn, FatFs.Shaken, File.Own;
      var btw := buff;
      if (fsize + |buff|) % TWO32 < fsize {
        btw := [];
      }
      res, bw := WriteAll(btw, sure);
      if res != FrOk {
        return;
      }
      if fptr > fsize {
        fsize := fptr;
      }
      written := true;
    }

    /** Before anything is written. */
    lemma Untouched(sure: bool)
      requires Usable() && (sure ==> Sound())
      ensures fs.Shaken() && fs.geo.WellFormed() && Snapshots(fs.geo, fs.Past())
      ensures WentOn(fs.geo, fs.Past(), fs.Past(), {}) && WentOn(fs.geo, fs.Past(), fs.Past(), Own(sure))
      ensures fs.geo.fsType != Fat12 && fs.Secure() ==> ImagesSafe(fs.geo, fs.disk.images, |fs.disk.images| - 1)
      ensures sure ==>
                && fptr <= |Data()| && Overwrite(Data(), fptr, []) == Data()
                && Extends(fs.geo, fs.view, chain, fs.view, chain)
    {
      hide Table, Sectors, Content, FatFs.Valid, C.IsChain, Extends, Clusters, Overwrite, Cursor, C.Clean;
      hide WentOn, SecurePast, ImagesSafe, File.Own, FatFs.Shaken;
      fs.NothingYet();
      fs.Standing();
      fs.StaysSecure(fs.Past(), {});
      WentOnWider(fs.geo, fs.Past(), fs.Past(), {}, Own(sure));
      if sure {
        ExtendsRefl(fs.geo, fs.view, chain);
        OverwriteNone(Data(), fptr);
      }
    }

    /**
     * `f_write`. `status` is what `validate` found. On a reliable drive whose table is clean exactly
     * the bytes from the cursor on are replaced, the file grows when they reach past its end, and
     * only a full volume or the 4 GB limit stops it short. The table, the chain and the allocation
     * hint become what making room for all of it leaves; on a full volume all there is gets used.
     * On any drive a failure sets the abort flag and leaves the size, and no link to a free cluster
     * comes about on the way.
     */
    method Write(status: Fresult, buff: seq<byte>) returns (res: Fresult, bw: nat)
      requires Usable() && |buff| < TWO32
      modifies `fptr, `fsize, `written, `orgClust, `currClust, `csect, `dsect, `link, `chain, `aborted
      modifies fs`winsect, fs`wflag, fs`stamps, fs`exempt, fs`view, fs`log
      modifies fs`freeClust, fs`fsiFlag, fs`lastClust, fs.win, fs.disk
      ensures fs.Shaken()
      ensures status != FrOk || old(aborted) || !canWrite ==>
                && res == (if status != FrOk then status else if old(aborted) then FrIntErr else FrDenied)
                && bw == 0 && fs.view == old(fs.view) && aborted == old(aborted) && fs.Valid()
      ensures status == FrOk && !old(aborted) && canWrite ==> Ended(res)
      ensures bw <= |buff| && fptr == old(fptr) + bw
      ensures res == FrOk ==> Usable() && fsize == Max(old(fsize), fptr) && written
      ensures res != FrOk ==> fsize == old(fsize) && written == old(written)
      ensures WentOn(fs.geo, old(fs.Past()), fs.Past(), Own(old(Sound())))
      ensures fs.geo.fsType != Fat12 && old(fs.Secure()) ==>
                fs.Secure() && ImagesSafe(fs.geo, fs.disk.images, |old(fs.disk.images)| - 1)
      ensures old(Sound()) ==> Sound() && aborted == old(aborted)
      ensures old(Sound()) && status == FrOk && !aborted && canWrite ==> res == FrOk
      ensures old(Sound()) ==> Data() == Overwrite(old(Data()), old(fptr), buff[..bw])
      ensures old(Sound()) && old(fs.CountOk()) ==> fs.CountOk()
      ensures old(Sound()) ==> Extends(fs.geo, old(fs.view), old(chain), fs.view, chain)
      ensures old(Sound()) && res == FrOk && bw < old(Asked(|buff|)) ==> C.NoFree(fs.Tab()) && Stuck()
      ensures old(Sound()) && res == FrOk ==>
                && bw <= old(Asked(|buff|))
                && Allocated(old(fs.Tab()), old(fs.lastClust), old(chain), old(fptr) + old(Asked(|buff|)))
      ensures old(Sound()) ==> ShortDone(old(fptr), |buff|, bw, old(Quiet()), old(fs.disk.sectors))
    {
      hide Table, Sectors, Content, FatFs.Valid, C.IsChain, Extends, Clusters, Overwrite, Cursor, C.Clean;
      hide C.NoFree, File.Allocated, File.Stuck, File.Parked, WentOn, SecurePast, ImagesSafe, File.Own;
      hide FatFs.Coherent, FatFs.Logged;
      ghost var h, sure := fs.Past(), Sound();
      bw := 0;
      Untouched(sure);
      if status != FrOk {
        return status, bw;
      }
      if aborted {
        return FrIntErr, bw;
      }
      if !canWrite {
        return FrDenied, bw;
      }
      res, bw := WriteOut(buff, sure);
      fs.StaysSecure(h, Own(sure));
    }

    /** `f_lseek` between two turns: the cursor stands at the start of cluster `link`. */
    ghost predicate Seeking(t0: C.Table, l0: nat, s0: seq<nat>, v0: View)
      reads this, fs, fs.win, fs.disk
    {
      && fs.Valid() && fs.disk.reliable && C.Clean(fs.Tab())
      && Placed(fs.geo, fs.view, orgClust, chain, fsize)
      && link < |chain| && currClust == chain[link]
      && fptr == SECTOR_SIZE * Mul(link, fs.geo.csize)
      && Extends(fs.geo, v0, s0, fs.view, chain)
      && 2 <= |t0|
      && (fs.Tab(), fs.lastClust, chain) == C.Grow(t0, l0, s0, link + 1, fs.EndMark())
    }

    /** `f_lseek` between two turns, whatever the drive does. */
    ghost predicate Roaming()
      reads this, fs, fs.win, fs.disk
    {
      && fs.geo.WellFormed() && fs.geo.Fits(fs.view) && fs.Valid()
      && !aborted && fsize < TWO32 && OrgFits()
      && fs.geo.ValidCluster(currClust) && fptr % SECTOR_SIZE == 0
    }

    /** One turn of the loop of `f_lseek` in write mode: enter the next cluster unless there is none. */
    method SeekNext(ghost t0: C.Table, ghost l0: nat, ghost s0: seq<nat>, ghost v0: View, ghost sure: bool)
      returns (res: Fresult, full: bool)
      requires Roaming()
      requires sure ==> Seeking(t0, l0, s0, v0)
      modifies `currClust, `link, `chain, `fptr, `aborted
      modifies fs`winsect, fs`wflag, fs`stamps, fs`exempt, fs`view, fs`log, fs`freeClust, fs`fsiFlag, fs`lastClust
      modifies fs.win, fs.disk
      ensures fs.Valid() && Ended(res)
      ensures res == FrOk ==> Roaming() && fptr == old(fptr) + if full then 0 else fs.geo.Bcs()
      ensures WentOn(fs.geo, old(fs.Past()), fs.Past(), {})
      ensures sure ==> res == FrOk && Seeking(t0, l0, s0, v0) && Data() == old(Data())
      ensures sure && chain == old(chain) && !old(fs.wflag) ==> !fs.wflag
      ensures sure ==> old(chain) <= chain
      ensures sure && old(fs.CountOk()) ==> fs.CountOk()
      ensures sure && full ==> |chain| == link + 1 && link == old(link) && C.NoFree(fs.Tab())
      ensures sure && full ==> C.Create(fs.Tab(), fs.lastClust, C.End(chain), fs.EndMark()).0 < 2
      ensures sure && !full ==> link == old(link) + 1
    {
      hide Table, Sectors, Content, FatFs.Logged, FatFs.Coherent, FatFs.Current, C.IsChain, Extends, Clusters, C.Clean;
      hide C.Create, C.Grow, OnlyFat, WentOn;
      ghost var v, s := fs.view, chain;
      if sure {
        LinkAt(fs.geo, fs.view, chain, link);
        C.GrowNext(t0, l0, s0, link + 1, fs.EndMark());
      }
      var clst := ChainAfter(currClust, link, sure);
      if sure {
        LiveKept(fs.geo, v, s, fs.view, chain, fsize);
        ExtendsTrans(fs.geo, v0, s0, v, s, fs.view, chain);
      }
      if clst == 0 {
        return FrOk, true;
      }
      res := Entered(clst);
      full := false;
    }

    /** `f_lseek`: make a cluster that was looked up current. */
    method Entered(clst: nat) returns (res: Fresult)
      requires !aborted
      modifies `currClust, `link, `fptr, `aborted
      ensures Ended(res)
      ensures res == if clst == DISK_ERROR then FrDiskErr else if fs.geo.ValidCluster(clst) then FrOk else FrIntErr
      ensures res == FrOk ==> currClust == clst && link == old(link) + 1 && fptr == old(fptr) + fs.geo.Bcs()
    {
      if clst == DISK_ERROR {
        aborted := true;
        return FrDiskErr;
      }
      if clst <= 1 || clst >= fs.geo.maxClust {
        aborted := true;
        return FrIntErr;
      }
      currClust, link := clst, link + 1;
      fptr := fptr + fs.geo.Bcs();
      return FrOk;
    }

    /** One turn of the loop of `f_lseek` in read mode. */
    method SeekFollow(ghost t0: C.Table, ghost l0: nat, ghost s0: seq<nat>, ghost v0: View, ghost sure: bool)
      returns (res: Fresult)
      requires Roaming()
      requires sure ==> Seeking(t0, l0, s0, v0) && link + 1 < |chain|
      modifies `currClust, `link, `fptr, `aborted
      modifies fs`winsect, fs`wflag, fs`stamps, fs`exempt, fs.win, fs.disk
      ensures fs.Valid() && Ended(res)
      ensures res == FrOk ==> Roaming() && fptr == old(fptr) + fs.geo.Bcs()
      ensures WentOn(fs.geo, old(fs.Past()), fs.Past(), {})
      ensures sure ==> res == FrOk && Seeking(t0, l0, s0, v0)
      ensures sure && !old(fs.wflag) ==> !fs.wflag
      ensures sure ==> link == old(link) + 1
    {
      hide Table, Sectors, Content, FatFs.Logged, FatFs.Coherent, FatFs.Current, C.IsChain, Extends, Clusters, C.Clean;
      hide C.Create, C.Grow, WentOn;
      ghost var h := fs.Past();
      fs.NothingYet();
      if sure {
        LinkAt(fs.geo, fs.view, chain, link);
        C.GrowNext(t0, l0, s0, link + 1, fs.EndMark());
      }
      var clst := fs.GetCluster(currClust);
      WentOnQuietly(fs.geo, h, fs.Past(), {});
      res := Entered(clst);
    }

    /** `f_lseek`, first choice: start from the current cluster. */
    method SeekHere(ghost sure: bool) returns (clst: nat)
      requires Steady() && 0 < fptr && fs.geo.ValidCluster(currClust)
      requires sure ==> Sound()
      modifies `csect, `fptr
      ensures csect == 255 && clst == currClust && clst != 0
      ensures Roaming() && fptr == StartOf(old(fptr) - 1, fs.geo.Bcs())
      ensures sure ==> Seeking(fs.Tab(), fs.lastClust, chain, fs.view)
      ensures sure ==> fptr == SECTOR_SIZE * Mul(link, fs.geo.csize)
    {
      hide Table, Sectors, Content, FatFs.Logged, FatFs.Coherent, FatFs.Current, C.IsChain, Extends, Clusters, C.Clean;
      var bcs := fs.geo.Bcs();
      if sure {
        CursorCluster(fs.geo, fptr, link, csect);
        LinkAt(fs.geo, fs.view, chain, link);
      }
      WholeClusters(fs.geo, fptr - 1);
      fptr := StartOf(fptr - 1, bcs);
      clst := currClust;
      csect := 255;
      if sure {
        ExtendsRefl(fs.geo, fs.view, chain);
      }
    }

    /** `f_lseek`, second choice: start from the first cluster, creating one for an empty file. */
    method SeekOrigin(ghost sure: bool) returns (res: Fresult, clst: nat)
      requires Steady()
      requires sure ==> Sound()
      modifies `orgClust, `currClust, `csect, `link, `chain, `fptr, `aborted
      modifies fs`winsect, fs`wflag, fs`stamps, fs`exempt, fs`view, fs`log, fs`freeClust, fs`fsiFlag, fs`lastClust
      modifies fs.win, fs.disk
      ensures fs.Valid() && Ended(res)
      ensures csect == 255 && fptr == 0
      ensures res == FrOk ==> if clst != 0 then Roaming() else OrgFits()
      ensures WentOn(fs.geo, old(fs.Past()), fs.Past(), {})
      ensures sure ==> res == FrOk
      ensures sure ==> Placed(fs.geo, fs.view, orgClust, chain, fsize) && Data() == old(Data())
      ensures sure && chain == old(chain) && !old(fs.wflag) ==> !fs.wflag
      ensures sure ==> old(chain) <= chain
      ensures sure && old(fs.CountOk()) ==> fs.CountOk()
      ensures sure && clst != 0 ==>
                Seeking(old(fs.Tab()), old(fs.lastClust), old(chain), old(fs.view)) && clst == currClust
      ensures sure && clst == 0 ==> NoRoom(old(fs.Tab()), old(fs.lastClust), old(chain), old(fs.view))
    {
      hide Table, Sectors, Content, FatFs.Logged, FatFs.Coherent, FatFs.Current, C.IsChain, Extends, Clusters, C.Clean;
      hide C.Create, OnlyFat, WentOn;
      fs.NothingYet();
      ghost var v, s, t, l := fs.view, chain, fs.Tab(), fs.lastClust;
      fptr := 0;
      csect := 255;
      link := 0;
      res := FrOk;
      clst := orgClust;
      if sure {
        ExtendsRefl(fs.geo, fs.view, chain);
        LinkAt(fs.geo, fs.view, chain, 0);
        C.CreateNone(t, l, 0, fs.EndMark());
      }
      if clst == 0 {
        clst := ChainAfter(0, 0, sure);
        if clst == 1 || clst == DISK_ERROR {
          aborted := true;
          return if clst == 1 then FrIntErr else FrDiskErr, clst;
        }
        orgClust := clst;
        if sure {
          LiveKept(fs.geo, v, s, fs.view, chain, fsize);
          C.GrowOne(t, l, [], 0, fs.EndMark());
        }
      }
      currClust := clst;
    }

    /** An empty file on a full volume: nothing happened. */
    ghost predicate NoRoom(t0: C.Table, l0: nat, s0: seq<nat>, v0: View)
      reads this, fs, fs.win, fs.disk
    {
      && fs.Valid() && fs.disk.reliable && C.Clean(fs.Tab())
      && chain == [] && s0 == [] && C.NoFree(fs.Tab())
      && Extends(fs.geo, v0, s0, fs.view, chain)
      && fs.Tab() == t0 && fs.lastClust == l0
      && C.Create(t0, l0, 0, fs.EndMark()).0 < 2
    }

    /** That leaves everything as making room would. */
    lemma AllocatedNot(t0: C.Table, l0: nat, s0: seq<nat>, v0: View, n: nat)
      requires NoRoom(t0, l0, s0, v0)
      ensures Allocated(t0, l0, s0, n)
    {
      hide Table, C.Create, C.Grow, Extends;
      C.GrowStuck(t0, l0, s0, 0, ClustersFor(n, fs.geo.Bcs()), fs.EndMark());
    }

    /** What `f_lseek` leaves for its tail to record. */
    ghost predicate Landed(nsect: nat)
      requires Clusters(fs.geo, chain)
      reads `fptr, `csect, `currClust, `link, `chain
    {
      || (fptr == 0 && csect == 255 && nsect == 0)
      || (&& 0 < fptr && link < |chain| && currClust == chain[link] && 1 <= csect <= fs.geo.csize
          && (fptr - 1) / SECTOR_SIZE == Mul(link, fs.geo.csize) + csect - 1 < |Spots()|
          && (fptr % SECTOR_SIZE != 0 ==>
                fptr / SECTOR_SIZE < |Spots()| && nsect == Spots()[fptr / SECTOR_SIZE] && nsect != 0))
    }

    /** The same, whatever the drive does. */
    ghost predicate Resting(nsect: nat)
      reads `fptr, `csect, `currClust
    {
      || (fptr == 0 && csect == 255 && nsect == 0)
      || (&& 0 < fptr && fs.geo.ValidCluster(currClust) && 1 <= csect <= fs.geo.csize
          && (fptr % SECTOR_SIZE != 0 ==> InDataArea(nsect)))
    }

    lemma Nowhere()
      requires fptr == 0 && csect == 255
      ensures Resting(0) && (Clusters(fs.geo, chain) ==> Landed(0))
    {
    }

    /** `f_lseek` inside the target cluster: the sector count and, off a boundary, the sector. */
    method SeekFinish(ofs: nat, ghost sure: bool) returns (nsect: nat)
      requires fs.geo.WellFormed() && fs.geo.ValidCluster(currClust) && fptr % SECTOR_SIZE == 0
      requires sure ==> Clusters(fs.geo, chain) && link < |chain| && currClust == chain[link]
      requires sure ==> fptr == SECTOR_SIZE * Mul(link, fs.geo.csize)
      requires 0 < ofs <= fs.geo.Bcs()
      modifies `fptr, `csect
      ensures fptr == old(fptr) + ofs && Resting(nsect)
      ensures sure ==> Landed(nsect)
    {
      hide Sectors;
      fptr := fptr + ofs;
      csect := ofs / SECTOR_SIZE;
      nsect := 0;
      ClusterInRange(fs.geo, currClust);
      if ofs % SECTOR_SIZE != 0 {
        if sure {
          SectorAt(fs.geo, chain, link, csect);
          SectorInData(fs.geo, chain, Mul(link, fs.geo.csize) + csect);
        }
        nsect := fs.Clust2Sect(currClust);
        nsect := nsect + csect;
        csect := csect + 1;
      }
      if sure {
        SectorAt(fs.geo, chain, link, csect - 1);
      }
    }

    /** How far a seek to `t` got: all the way, or to the end of the room a full volume left it. */
    ghost predicate Arrived(t: nat)
      reads this, fs
      requires fs.geo.WellFormed() && fs.geo.Fits(fs.view)
    {
      fptr == t ||
      (canWrite && C.NoFree(fs.Tab()) && fptr == SECTOR_SIZE * Mul(|chain|, fs.geo.csize) < t)
    }

    /** The loop of `f_lseek`; `ofs` counts from the cursor. */
    method SeekLoop(n: nat, ghost t0: C.Table, ghost l0: nat, ghost s0: seq<nat>, ghost v0: View, ghost sure: bool)
      returns (res: Fresult, full: bool, ofs: nat)
      requires Roaming() && 0 < n
      requires sure ==> Seeking(t0, l0, s0, v0) && (canWrite || fptr + n <= fsize)
      modifies `currClust, `link, `chain, `fptr, `aborted
      modifies fs`winsect, fs`wflag, fs`stamps, fs`exempt, fs`view, fs`log, fs`freeClust, fs`fsiFlag, fs`lastClust
      modifies fs.win, fs.disk
      ensures fs.Valid() && Ended(res)
      ensures res == FrOk ==> Roaming() && 0 < ofs <= fs.geo.Bcs()
      ensures res == FrOk ==>
        if full then canWrite && ofs == fs.geo.Bcs() && fptr + ofs < old(fptr) + n else fptr + ofs == old(fptr) + n
      ensures WentOn(fs.geo, old(fs.Past()), fs.Past(), {})
      ensures sure ==> res == FrOk && Seeking(t0, l0, s0, v0) && Data() == old(Data())
      ensures sure && chain == old(chain) && !old(fs.wflag) ==> !fs.wflag
      ensures sure ==> old(chain) <= chain
      ensures sure && old(fs.CountOk()) ==> fs.CountOk()
      ensures sure && full ==>
                && |chain| == link + 1 && C.NoFree(fs.Tab())
                && C.Create(fs.Tab(), fs.lastClust, C.End(chain), fs.EndMark()).0 < 2
    {
      hide Table, Sectors, Content, FatFs.Logged, FatFs.Coherent, FatFs.Current, C.IsChain, Extends, Clusters, C.Clean;
      hide C.Create, C.Grow, C.NoFree, WentOn;
      fs.NothingYet();
      var bcs := fs.geo.Bcs();
      res, full, ofs := FrOk, false, n;
      while ofs > bcs
        invariant res == FrOk && !full && Roaming()
        invariant sure ==> Seeking(t0, l0, s0, v0) && Data() == old(Data())
        invariant WentOn(fs.geo, old(fs.Past()), fs.Past(), {})
        invariant sure ==> old(chain) <= chain && (chain == old(chain) && !old(fs.wflag) ==> !fs.wflag)
        invariant sure && old(fs.CountOk()) ==> fs.CountOk()
        invariant 0 < ofs && fptr + ofs == old(fptr) + n && (sure ==> canWrite || fptr + ofs <= fsize)
      {
        if sure {
          RoomAhead(fs.geo, |chain|, fptr, link);
        }
        ghost var h := fs.Past();
        if canWrite {
          res, full := SeekNext(t0, l0, s0, v0, sure);
        } else {
          res := SeekFollow(t0, l0, s0, v0, sure);
        }
        WentOnTrans(fs.geo, old(fs.Past()), h, fs.Past(), {}, {}, {});
        if res != FrOk || full {
          return res, full, bcs;
        }
        ofs := ofs - bcs;
      }
    }

    /** The loop of `f_lseek` and what follows it. */
    method SeekOn(n: nat, ghost t0: C.Table, ghost l0: nat, ghost s0: seq<nat>, ghost v0: View, ghost sure: bool)
      returns (res: Fresult, nsect: nat)
      requires Roaming() && 0 < n
      requires sure ==> Seeking(t0, l0, s0, v0) && (canWrite || fptr + n <= fsize)
      modifies `currClust, `link, `chain, `fptr, `csect, `aborted
      modifies fs`winsect, fs`wflag, fs`stamps, fs`exempt, fs`view, fs`log, fs`freeClust, fs`fsiFlag, fs`lastClust
      modifies fs.win, fs.disk
      ensures fs.Valid() && Ended(res)
      ensures res == FrOk ==> Resting(nsect) && fptr <= old(fptr) + n && (fptr == old(fptr) + n || canWrite)
      ensures WentOn(fs.geo, old(fs.Past()), fs.Past(), {})
      ensures sure ==> res == FrOk && C.Clean(fs.Tab())
      ensures sure ==> Placed(fs.geo, fs.view, orgClust, chain, fsize) && Data() == old(Data())
      ensures sure && chain == old(chain) && !old(fs.wflag) ==> !fs.wflag
      ensures sure ==> old(chain) <= chain
      ensures sure && old(fs.CountOk()) ==> fs.CountOk()
      ensures sure ==> Extends(fs.geo, v0, s0, fs.view, chain)
      ensures sure ==> Arrived(old(fptr) + n) && Landed(nsect)
      ensures sure ==> Allocated(t0, l0, s0, old(fptr) + n)
    {
      hide Mul, Table, Sectors, Content, FatFs.Logged, FatFs.Coherent;
      hide FatFs.Current, C.IsChain, Extends, Clusters, C.Clean;
      hide C.Create, C.Grow, C.NoFree, WentOn;
      var full, ofs;
      res, full, ofs := SeekLoop(n, t0, l0, s0, v0, sure);
      if res != FrOk {
        return res, 0;
      }
      if sure {
        RoomAhead(fs.geo, |chain|, fptr, link);
        if full {
          NeedMore(fs.geo, old(fptr) + n, link);
          C.GrowStuck(t0, l0, s0, link + 1, ClustersFor(old(fptr) + n, fs.geo.Bcs()), fs.EndMark());
        } else {
          NeedExact(fs.geo, old(fptr) + n, link, ofs);
        }
      }
      nsect := SeekFinish(ofs, sure);
    }

    /** `f_lseek`: the cluster to start from, 0 when there is none and none to be had. */
    method SeekStart(t: nat, ghost sure: bool) returns (res: Fresult, clst: nat)
      requires Steady() && 0 < t
      requires sure ==> Sound()
      modifies `orgClust, `currClust, `link, `chain, `fptr, `csect, `aborted
      modifies fs`winsect, fs`wflag, fs`stamps, fs`exempt, fs`view, fs`log, fs`freeClust, fs`fsiFlag, fs`lastClust
      modifies fs.win, fs.disk
      ensures fs.Valid() && Ended(res)
      ensures res == FrOk ==> csect == 255 && if clst != 0 then Roaming() && fptr < t else OrgFits() && fptr == 0
      ensures WentOn(fs.geo, old(fs.Past()), fs.Past(), {})
      ensures sure ==> res == FrOk
      ensures sure ==> Placed(fs.geo, fs.view, orgClust, chain, fsize) && Data() == old(Data())
      ensures sure && chain == old(chain) && !old(fs.wflag) ==> !fs.wflag
      ensures sure ==> old(chain) <= chain
      ensures sure && old(fs.CountOk()) ==> fs.CountOk()
      ensures sure && clst != 0 ==> Seeking(old(fs.Tab()), old(fs.lastClust), old(chain), old(fs.view))
      ensures sure && clst == 0 ==> NoRoom(old(fs.Tab()), old(fs.lastClust), old(chain), old(fs.view))
    {
      hide Table, Sectors, Content, FatFs.Valid, C.IsChain, Extends, Clusters, C.Clean;
      hide C.NoFree, SameOrLaterCluster, WentOn, Seeking, NoRoom, Cursor;
      fs.NothingYet();
      if fptr > 0 {
        SeekAhead(fs.geo, t, fptr);
      }
      if fptr > 0 && SameOrLaterCluster(t, fptr, fs.geo.Bcs()) {
        clst := SeekHere(sure);
        res := FrOk;
      } else {
        res, clst := SeekOrigin(sure);
      }
    }

    /** `f_lseek` to a target other than the origin. */
    method SeekTo(t: nat, ghost sure: bool) returns (res: Fresult, nsect: nat)
      requires Steady() && 0 < t < TWO32
      requires sure ==> Sound() && (canWrite || t <= fsize)
      modifies `orgClust, `currClust, `link, `chain, `fptr, `csect, `aborted
      modifies fs`winsect, fs`wflag, fs`stamps, fs`exempt, fs`view, fs`log, fs`freeClust, fs`fsiFlag, fs`lastClust
      modifies fs.win, fs.disk
      ensures fs.Valid() && Ended(res)
      ensures res == FrOk ==> Resting(nsect) && OrgFits() && fptr <= t
      ensures WentOn(fs.geo, old(fs.Past()), fs.Past(), {})
      ensures sure ==> res == FrOk && C.Clean(fs.Tab())
      ensures sure ==> Placed(fs.geo, fs.view, orgClust, chain, fsize) && Data() == old(Data())
      ensures sure && chain == old(chain) && !old(fs.wflag) ==> !fs.wflag
      ensures sure && old(fs.CountOk()) ==> fs.CountOk()
      ensures sure ==> Extends(fs.geo, old(fs.view), old(chain), fs.view, chain)
      ensures sure ==> Arrived(t) && Landed(nsect)
      ensures sure ==> Allocated(old(fs.Tab()), old(fs.lastClust), old(chain), t)
    {
      hide Table, Sectors, Content, FatFs.Valid, C.IsChain, Extends, Clusters, C.Clean;
      hide C.NoFree, File.Allocated, WentOn, Resting, Landed;
      ghost var h := fs.Past();
      ghost var t0, l0, s0, v0 := fs.Tab(), fs.lastClust, chain, fs.view;
      var clst;
      res, clst := SeekStart(t, sure);
      if res != FrOk {
        return res, 0;
      }
      if clst == 0 {
        if sure {
          AllocatedNot(t0, l0, s0, v0, t);
        }
        Nowhere();
        return FrOk, 0;
      }
      ghost var h1 := fs.Past();
      res, nsect := SeekOn(t - fptr, t0, l0, s0, v0, sure);
      WentOnTrans(fs.geo, h, h1, fs.Past(), {}, {}, {});
    }

    /** `f_lseek`: the tail, which records the sector and the larger size. */
    method SeekSettle(nsect: nat, ghost sure: bool)
      requires fs.geo.WellFormed() && fs.Valid() && !aborted && fptr < TWO32 && fsize < TWO32
      requires OrgFits() && Resting(nsect)
      requires sure ==> Placed(fs.geo, fs.view, orgClust, chain, fsize) && Landed(nsect)
      modifies `dsect, `fsize, `written
      ensures Steady() && fsize == Max(old(fsize), fptr)
      ensures old(fsize) < fsize ==> written
      ensures sure ==> Valid() && Data()[..old(fsize)] == old(Data())
    {
      hide Table, Sectors, Content, FatFs.Logged, FatFs.Coherent, FatFs.Current, C.IsChain, Clusters;
      if sure {
        SpotsInView(fs.geo, fs.view, chain);
        ContentShort(fs.view, Spots(), fsize, Max(fsize, fptr));
      }
      if nsect != 0 && nsect != dsect && fptr % SECTOR_SIZE != 0 {
        dsect := nsect;
      }
      if fptr > fsize {
        fsize := fptr;
        written := true;
      }
    }

    /** `f_lseek` after its checks. */
    method Reposition(ofs: nat, ghost sure: bool) returns (res: Fresult)
      requires Steady() && ofs < TWO32
      requires sure ==> Sound() && (canWrite || ofs <= fsize)
      modifies `fptr, `fsize, `written, `orgClust, `currClust, `csect, `dsect, `link, `chain, `aborted
      modifies fs`winsect, fs`wflag, fs`stamps, fs`exempt, fs`view, fs`log, fs`freeClust, fs`fsiFlag, fs`lastClust
      modifies fs.win, fs.disk
      ensures fs.Valid() && Ended(res)
      ensures res == FrOk ==> Steady() && fptr <= ofs && fsize == Max(old(fsize), fptr)
      ensures res != FrOk ==> fsize == old(fsize) && written == old(written)
      ensures old(fsize) < fsize ==> written
      ensures WentOn(fs.geo, old(fs.Past()), fs.Past(), {})
      ensures ofs == 0 ==>
                fs.wflag == old(fs.wflag) && fs.winsect == old(fs.winsect) && fs.disk.sectors == old(fs.disk.sectors)
      ensures sure ==> res == FrOk && Sound() && Data()[..old(fsize)] == old(Data())
      ensures sure ==> Extends(fs.geo, old(fs.view), old(chain), fs.view, chain)
      ensures sure && chain == old(chain) && !old(fs.wflag) ==> !fs.wflag
      ensures sure && old(fs.CountOk()) ==> fs.CountOk()
      ensures sure ==> Arrived(ofs) && Allocated(old(fs.Tab()), old(fs.lastClust), old(chain), ofs)
    {
      hide Table, Sectors, Content, FatFs.Logged, FatFs.Coherent, FatFs.Current, C.IsChain, Extends, Clusters, C.Clean;
      hide C.NoFree, File.Allocated, WentOn;
      var nsect := 0;
      res := FrOk;
      if ofs > 0 {
        res, nsect := SeekTo(ofs, sure);
        if res != FrOk {
          return;
        }
      } else {
        fs.NothingYet();
        if sure {
          ExtendsRefl(fs.geo, fs.view, chain);
          AllocatedHere(0);
        }
        fptr := 0;
        csect := 255;
      }
      SeekSettle(nsect, sure);
    }

    /**
     * `f_lseek`. On a reliable drive whose table is clean it does not matter where the cursor stood
     * before: the table, the chain and the allocation hint become what stretching the chain to the
     * target makes of them, and the cursor invariant fixes the rest. On any drive a failure sets the
     * abort flag and leaves the size, and no link to a free cluster comes about on the way.
     */
    method Seek(status: Fresult, n: nat) returns (res: Fresult)
      requires Usable() && n < TWO32
      modifies `fptr, `fsize, `written, `orgClust, `currClust, `csect, `dsect, `link, `chain, `aborted
      modifies fs`winsect, fs`wflag, fs`stamps, fs`exempt, fs`view, fs`log, fs`freeClust, fs`fsiFlag, fs`lastClust
      modifies fs.win, fs.disk
      ensures fs.Valid()
      ensures status != FrOk || old(aborted) ==>
                && res == (if status != FrOk then status else FrIntErr)
                && fs.view == old(fs.view) && fptr == old(fptr) && aborted == old(aborted)
      ensures status == FrOk && !old(aborted) ==> Ended(res)
      ensures res == FrOk ==> Usable() && fptr <= n && fsize == Max(old(fsize), fptr)
      ensures res != FrOk ==> fsize == old(fsize) && written == old(written)
      ensures old(fsize) < fsize ==> written
      ensures WentOn(fs.geo, old(fs.Past()), fs.Past(), {})
      ensures fs.geo.fsType != Fat12 && old(fs.Secure()) ==>
                fs.Secure() && ImagesSafe(fs.geo, fs.disk.images, |old(fs.disk.images)| - 1)
      ensures n == 0 ==>
                fs.wflag == old(fs.wflag) && fs.winsect == old(fs.winsect) && fs.disk.sectors == old(fs.disk.sectors)
      ensures old(Sound()) ==> Sound() && aborted == old(aborted) && Data()[..old(fsize)] == old(Data())
      ensures old(Sound()) && status == FrOk && !aborted ==> res == FrOk
      ensures old(Sound()) ==> Extends(fs.geo, old(fs.view), old(chain), fs.view, chain)
      ensures old(Sound()) && chain == old(chain) && !old(fs.wflag) ==> !fs.wflag
      ensures old(Sound()) && old(fs.CountOk()) ==> fs.CountOk()
      ensures old(Sound()) && res == FrOk && (canWrite || n <= old(fsize)) ==>
                && (fptr == n ||
                    (canWrite && C.NoFree(fs.Tab()) && fptr == SECTOR_SIZE * Mul(|chain|, fs.geo.csize) < n))
                && Allocated(old(fs.Tab()), old(fs.lastClust), old(chain), n)
      ensures old(Sound()) && res == FrOk && !canWrite && old(fsize) < n ==>
                fptr == old(fsize) && Allocated(old(fs.Tab()), old(fs.lastClust), old(chain), old(fsize))
    {
      hide Table, Sectors, Content, FatFs.Logged, FatFs.Coherent, FatFs.Current, C.IsChain, Extends, Clusters, C.Clean;
      hide C.NoFree, File.Allocated, File.Cursor, WentOn, SecurePast, ImagesSafe;
      ghost var h, sure := fs.Past(), Sound();
      fs.NothingYet();
      fs.StaysSecure(h, {});
      if sure {
        ExtendsRefl(fs.geo, fs.view, chain);
      }
      if status != FrOk {
        return status;
      }
      if aborted {
        return FrIntErr;
      }
      var ofs := n;
      if ofs > fsize && !canWrite {
        ofs := fsize;
      }
      res := Reposition(ofs, sure);
      fs.StaysSecure(h, {});
    }

    /** The directory entry lies in a window sector that is neither table nor free nor part of the file. */
    ghost predicate EntryPlaced()
      requires fs.geo.WellFormed() && fs.geo.Fits(fs.view) && Clusters(fs.geo, chain)
      reads `chain, fs`view
    {
      && fs.geo.Windowed(dirSect) && !fs.geo.InFat(dirSect) && dirOfs + ENTRY_SIZE <= SECTOR_SIZE
      && Elsewhere(fs.geo, fs.view, chain, dirSect)
    }

    /** The directory entry of the file in a view. */
    function EntryIn(v: View): (e: Entry)
      requires dirSect < |v| && dirOfs + ENTRY_SIZE <= SECTOR_SIZE
    {
      v[dirSect][dirOfs..dirOfs + ENTRY_SIZE]
    }

    /** The medium alone, read through the directory entry on it, yields the file. */
    ghost predicate OnMedium()
      requires Placed(fs.geo, fs.view, orgClust, chain, fsize) && dirSect < fs.geo.nsects
      requires dirOfs + ENTRY_SIZE <= SECTOR_SIZE
      reads this, fs, fs.disk
    {
      && fs.geo.Fits(fs.disk.sectors)
      && var e := EntryIn(fs.disk.sectors);
         && Placed(fs.geo, fs.disk.sectors, StartCluster(e), chain, FileSize(e))
         && InView(fs.disk.sectors, Spots()) && FileSize(e) <= SECTOR_SIZE * |Spots()|
         && Content(fs.disk.sectors, Spots(), FileSize(e)) == Data()
    }

    /**
     * `f_sync`: record the size and the start cluster in the directory entry and flush everything.
     * Nothing happens to a file that has not been written.
     */
    method Sync(status: Fresult) returns (res: Fresult)
      requires Valid() && EntryPlaced()
      modifies `written
      modifies fs`winsect, fs`wflag, fs`stamps, fs`exempt, fs`view, fs`log, fs`fsiFlag, fs.win, fs.disk
      ensures Valid() && EntryPlaced() && Data() == old(Data()) && fs.Tab() == old(fs.Tab())
      ensures status != FrOk ==> res == status
      ensures status == FrOk && fs.disk.reliable ==> res == FrOk
      ensures !old(written) ==> fs.view == old(fs.view) && fs.disk.sectors == old(fs.disk.sectors)
      ensures res == FrOk && old(written) ==> !written && !fs.wflag && OnMedium()
      ensures res == FrOk && old(written) ==>
                EntryIn(fs.view) == Recorded(old(EntryIn(fs.view)), orgClust, fsize)
      ensures forall x :: 0 <= x < fs.geo.nsects && x != dirSect && x != fs.geo.fsiSector ==>
                fs.view[x] == old(fs.view)[x]
      ensures WentOn(fs.geo, old(fs.Past()), fs.Past(), {})
      ensures fs.geo.fsType != Fat12 && old(fs.Secure()) ==>
                fs.Secure() && ImagesSafe(fs.geo, fs.disk.images, |old(fs.disk.images)| - 1)
    {
      hide Table, Sectors, Content, FatFs.Logged, FatFs.Coherent, FatFs.Current, C.IsChain, Clusters, Recorded;
      hide WentOn, SecurePast, ImagesSafe;
      ghost var h := fs.Past();
      fs.NothingYet();
      fs.StaysSecure(h, {});
      res := status;
      if res == FrOk && written {
        res := Record();
        ghost var h1 := fs.Past();
        fs.StaysSecure(h, {});
        if res == FrOk {
          ghost var v := fs.view;
          SpotsInData(fs.geo, chain);
          ElsewhereApart(fs.geo, fs.view, chain, dirSect);
          res := fs.Sync();
          WentOnTrans(fs.geo, h, h1, fs.Past(), {}, {}, {});
          fs.StaysSecure(h, {});
          MetaKept(fs.geo, v, fs.view, orgClust, chain, fsize);
          if res == FrOk {
            AllWritten();
          }
        }
      }
    }

    /** `f_sync`: update the directory entry in the window. */
    method Record() returns (res: Fresult)
      requires Valid() && EntryPlaced()
      modifies `written
      modifies fs`winsect, fs`wflag, fs`stamps, fs`exempt, fs`view, fs`log, fs.win, fs.disk
      ensures Valid() && EntryPlaced() && Data() == old(Data()) && fs.Tab() == old(fs.Tab())
      ensures fs.disk.reliable ==> res == FrOk
      ensures res == FrOk ==> !written && EntryIn(fs.view) == Recorded(old(EntryIn(fs.view)), orgClust, fsize)
      ensures forall x :: 0 <= x < fs.geo.nsects && x != dirSect ==> fs.view[x] == old(fs.view)[x]
      ensures WentOn(fs.geo, old(fs.Past()), fs.Past(), {})
    {
      hide Table, Sectors, Content, FatFs.Logged, FatFs.Coherent, FatFs.Current, C.IsChain, Clusters, Recorded;
      hide WentOn;
      ghost var v := fs.view;
      ElsewhereApart(fs.geo, fs.view, chain, dirSect);
      ghost var h := fs.Past();
      fs.NothingYet();
      res := fs.MoveWindow(dirSect);
      ghost var h1 := fs.Past();
      WentOnQuietly(fs.geo, h, h1, {});
      if res == FrOk {
        fs.Poke(dirOfs, Recorded(fs.win[dirOfs..dirOfs + ENTRY_SIZE], orgClust, fsize));
        written := false;
        fs.OneStore(h, h1);
      }
      MetaKept(fs.geo, v, fs.view, orgClust, chain, fsize);
    }

    /** With nothing dirty the medium holds the file and the way to it. */
    lemma AllWritten()
      requires Valid() && EntryPlaced() && !fs.wflag
      requires exists e: Entry :: EntryIn(fs.view) == Recorded(e, orgClust, fsize)
      ensures OnMedium()
    {
      hide Table, Sectors, Content, FatFs.Logged, C.IsChain, Recorded;
      var e: Entry :| EntryIn(fs.view) == Recorded(e, orgClust, fsize);
      OrgBounded(fs.geo, chain, orgClust);
      SpotsInData(fs.geo, chain);
      ElsewhereApart(fs.geo, fs.view, chain, dirSect);
      RecordedFields(e, orgClust, fsize);
      MetaKept(fs.geo, fs.view, fs.disk.sectors, orgClust, chain, fsize);
    }
  }

  /** The sectors of a chain. */
  ghost function Home(g: Geometry, s: seq<nat>): (r: set<nat>)
    requires Clusters(g, s)
  {
    set x | x in Sectors(g, s)
  }

  lemma HomeGrows(g: Geometry, v0: View, s0: seq<nat>, v: View, s: seq<nat>)
    requires Extends(g, v0, s0, v, s)
    ensures Clusters(g, s0) && Clusters(g, s) && Home(g, s0) <= Home(g, s)
  {
    hide Sectors, Table;
    SectorsGrow(g, s0, s);
  }

  /** A run of consecutive sectors of a chain. */
  lemma RunAtHome(g: Geometry, s: seq<nat>, j: nat, cc: nat)
    requires Clusters(g, s) && j < |Sectors(g, s)| && j + cc <= |Sectors(g, s)|
    requires forall k :: j <= k < j + cc ==> Sectors(g, s)[k] == Sectors(g, s)[j] + (k - j)
    ensures Range(Sectors(g, s)[j], cc) <= Home(g, s)
  {
    hide Sectors, Range;
    var ss := Sectors(g, s);
    forall x | x in Range(ss[j], cc) ensures x in Home(g, s) {
      assert ss[j + (x - ss[j])] == x;
    }
  }

  lemma RangeInData(g: Geometry, s: nat, n: nat)
    requires g.WellFormed() && g.database <= s && s + n <= g.nsects
    ensures Range(s, n) <= Range(g.database, g.nsects - g.database)
  {
    hide Range;
  }

  /** Sector `x` is in no cluster of chain `s` and in no free cluster. */
  ghost predicate Elsewhere(g: Geometry, v: View, s: seq<nat>, x: nat)
    requires g.WellFormed() && g.Fits(v)
  {
    forall c :: g.ValidCluster(c) && g.ClusterBase(c) <= x < g.ClusterBase(c) + g.csize ==>
      c !in s && Table(g, v)[c] != 0
  }

  lemma ElsewhereApart(g: Geometry, v: View, s: seq<nat>, x: nat)
    requires g.WellFormed() && g.Fits(v) && Clusters(g, s) && Elsewhere(g, v, s, x)
    ensures x !in Sectors(g, s)
  {
    hide Sectors, Table;
    forall j | 0 <= j < |Sectors(g, s)| ensures Sectors(g, s)[j] != x {
      var q, r := SectorOwner(g, s, j);
      assert s[q] in s;
    }
  }

  /** Growing the chain does not swallow such a sector, and leaves its content alone. */
  lemma ElsewhereStays(g: Geometry, v0: View, s0: seq<nat>, v: View, s: seq<nat>, x: nat)
    requires Extends(g, v0, s0, v, s) && Elsewhere(g, v0, s0, x)
    ensures Elsewhere(g, v, s, x)
    ensures x < g.nsects && !g.InFat(x) ==> v[x] == v0[x]
  {
    hide Sectors, Table;
    forall i | 0 <= i < |s| ensures !(g.ClusterBase(s[i]) <= x < g.ClusterBase(s[i]) + g.csize) {
      if i < |s0| {
        assert s0[i] == s[i] && s0[i] in s0;
      }
    }
    ElsewhereApart(g, v, s, x);
  }

  lemma OrgBounded(g: Geometry, s: seq<nat>, org: nat)
    requires g.WellFormed() && Clusters(g, s) && (org == 0 <==> s == []) && (s != [] ==> s[0] == org)
    ensures org < TWO32
  {
  }

  lemma SpotsInData(g: Geometry, s: seq<nat>)
    requires g.WellFormed() && Clusters(g, s)
    ensures forall x :: x in Sectors(g, s) ==> g.database <= x < g.nsects && g.Seen(x)
  {
    hide Sectors;
    forall x | x in Sectors(g, s) ensures g.database <= x < g.nsects && g.Seen(x) {
      var j :| 0 <= j < |Sectors(g, s)| && Sectors(g, s)[j] == x;
      SectorInData(g, s, j);
    }
  }

  /** A file only depends on the cluster table and on its own sectors. */
  lemma MetaKept(g: Geometry, v: View, v': View, org: nat, s: seq<nat>, n: nat)
    requires Placed(g, v, org, s, n) && g.Fits(v')
    requires forall x :: g.InFat(x) ==> v'[x] == v[x]
    requires forall x :: 0 <= x < g.nsects && x in Sectors(g, s) ==> v'[x] == v[x]
    ensures Placed(g, v', org, s, n) && Table(g, v') == Table(g, v)
    ensures InView(v, Sectors(g, s)) && InView(v', Sectors(g, s)) && n <= SECTOR_SIZE * |Sectors(g, s)|
    ensures Content(v', Sectors(g, s), n) == Content(v, Sectors(g, s), n)
  {
    hide Table, Sectors, Content;
    TableKept(g, v, v');
    SpotsInView(g, v, s);
    SpotsInView(g, v', s);
    ContentFrame(v, v', Sectors(g, s), n);
  }

  lemma PastSectors(p: nat, cc: nat)
    requires p % SECTOR_SIZE == 0 && 0 < cc
    ensures (p + SECTOR_SIZE * cc) % SECTOR_SIZE == 0
    ensures (p + SECTOR_SIZE * cc - 1) / SECTOR_SIZE == p / SECTOR_SIZE + cc - 1
  {
  }

  /** The start of the cluster position `n` is in, for clusters of `bcs` bytes. */
  function StartOf(n: nat, bcs: nat): (p: nat)
    requires 0 < bcs
    ensures p == Mul(n / bcs, bcs) <= n
  {
    MulIsProduct(n / bcs, bcs);
    n - n % bcs
  }

  /** It starts a sector. */
  lemma WholeClusters(g: Geometry, n: nat)
    requires g.WellFormed()
    ensures 0 < g.Bcs() && StartOf(n, g.Bcs()) % SECTOR_SIZE == 0
  {
    hide StartOf;
    var q := StartMultiple(n, g.Bcs());
    MulScale(q, g.csize, SECTOR_SIZE);
  }

  lemma StartMultiple(n: nat, bcs: nat) returns (q: nat)
    requires 0 < bcs
    ensures StartOf(n, bcs) == Mul(q, bcs)
  {
    q := n / bcs;
  }

  /** The cursor determines its cluster: the shortcut of `f_lseek` finds its start. */
  lemma CursorCluster(g: Geometry, fptr: nat, link: nat, csect: nat)
    requires 0 < fptr && 1 <= csect <= g.csize
    requires (fptr - 1) / SECTOR_SIZE == Mul(link, g.csize) + csect - 1
    ensures 0 < g.Bcs() && (fptr - 1) / g.Bcs() == link
    ensures StartOf(fptr - 1, g.Bcs()) == SECTOR_SIZE * Mul(link, g.csize)
  {
    var r := fptr - 1 - SECTOR_SIZE * Mul(link, g.csize);
    MulScale(link, g.csize, SECTOR_SIZE);
    MulIsProduct(link, g.Bcs());
    DivUnique(fptr - 1, link, r, g.Bcs());
  }

  /** A cursor is determined by its position and the chain, however it got there. */
  lemma CursorDetermined(a: File, b: File)
    requires a.fs == b.fs && a.fs.geo.WellFormed() && a.chain == b.chain && Clusters(a.fs.geo, a.chain)
    requires a.Cursor() && b.Cursor() && a.fptr == b.fptr
    ensures a.csect == b.csect
    ensures a.fptr == 0 ==> a.csect == 255
    ensures 0 < a.fptr ==>
              && 0 < a.fs.geo.Bcs() && a.currClust == b.currClust
              && var link := (a.fptr - 1) / a.fs.geo.Bcs();
                 link < |a.chain| && a.currClust == a.chain[link]
                 && (a.fptr - 1) / SECTOR_SIZE == Mul(link, a.fs.geo.csize) + a.csect - 1
    ensures a.fptr % SECTOR_SIZE != 0 ==> a.dsect == b.dsect
  {
    hide Sectors;
    if 0 < a.fptr {
      CursorCluster(a.fs.geo, a.fptr, a.link, a.csect);
      CursorCluster(b.fs.geo, b.fptr, b.link, b.csect);
    }
  }

  /** A file that reaches past the end of a cluster has another one. */
  lemma RoomAhead(g: Geometry, n: nat, fptr: nat, link: nat)
    requires fptr == SECTOR_SIZE * Mul(link, g.csize)
    ensures fptr + g.Bcs() == SECTOR_SIZE * Mul(link + 1, g.csize)
    ensures fptr + g.Bcs() < SECTOR_SIZE * Mul(n, g.csize) ==> link + 1 < n
  {
    if n <= link + 1 {
      MulMonotone(n, link + 1, g.csize);
    }
  }

  /** A target inside cluster `link` takes `link + 1` clusters. */
  lemma NeedExact(g: Geometry, t: nat, link: nat, ofs: nat)
    requires 0 < ofs <= g.Bcs() && t == SECTOR_SIZE * Mul(link, g.csize) + ofs
    ensures ClustersFor(t, g.Bcs()) == link + 1
  {
    MulScale(link, g.csize, SECTOR_SIZE);
    ClustersForSkip(t, g.Bcs(), link);
  }

  /** What fits `n` clusters takes no more. */
  lemma {:induction false} NeedAtMost(t: nat, bcs: nat, n: nat)
    requires 0 < bcs && t <= Mul(n, bcs)
    ensures ClustersFor(t, bcs) <= n
    decreases n
  {
    if bcs < t {
      NeedAtMost(t - bcs, bcs, n - 1);
    }
  }

  /** A target past cluster `link` takes more. */
  lemma NeedMore(g: Geometry, t: nat, link: nat)
    requires 0 < g.csize && SECTOR_SIZE * Mul(link + 1, g.csize) < t
    ensures link + 1 < ClustersFor(t, g.Bcs())
  {
    MulScale(link + 1, g.csize, SECTOR_SIZE);
    ClustersForSkip(t, g.Bcs(), link + 1);
  }

  /** Room for the first byte of a file takes its first cluster. */
  lemma FirstAllocated(g: Geometry, t: C.Table, l: nat, s: seq<nat>, p: nat, eoc: nat)
    requires g.WellFormed() && 2 <= |t| && p == 0
    ensures 0 < g.Bcs() && Mul(0, g.csize) == 0
    ensures var c := C.Create(t, l, 0, eoc);
            && (c.0 < 2 ==> c.1 == t && c.2 == l)
            && C.Grow(t, l, s, ClustersFor(p + 1, g.Bcs()), eoc) ==
               if s != [] || c.0 < 2 then (t, l, s) else (c.1, c.2, s + [c.0])
  {
    hide C.Create;
    C.CreateNone(t, l, 0, eoc);
    if s == [] {
      C.GrowOne(t, l, s, 0, eoc);
    }
  }

  /** Room for the byte after cluster `at` takes one cluster more: the next one, or a new one. */
  lemma NextAllocated(g: Geometry, t: C.Table, l: nat, s: seq<nat>, at: nat, p: nat, eoc: nat)
    requires g.WellFormed() && 2 <= |t| && at < |s| && p == SECTOR_SIZE * Mul(at + 1, g.csize)
    requires at + 1 < |s| ==> 2 <= s[at] < |t| && 2 <= t[s[at]] < |t|
    ensures 0 < g.Bcs()
    ensures var c := C.Create(t, l, s[at], eoc);
            && (c.0 < 2 ==> c.1 == t && c.2 == l)
            && (at + 1 < |s| ==> c == (t[s[at]], t, l))
            && (at + 1 == |s| ==> s[at] == C.End(s))
            && C.Grow(t, l, s, ClustersFor(p + 1, g.Bcs()), eoc) ==
               if at + 1 < |s| || c.0 < 2 then (t, l, s) else (c.1, c.2, s + [c.0])
  {
    hide C.Create, C.Grow;
    NeedExact(g, p + 1, at + 1, 1);
    C.GrowNext(t, l, s, at + 1, eoc);
  }

  /** The bytes of `n` clusters take `n` clusters. */
  lemma NeedWhole(g: Geometry, n: nat)
    requires g.WellFormed()
    ensures 0 < g.Bcs() && ClustersFor(SECTOR_SIZE * Mul(n, g.csize), g.Bcs()) == n
  {
    if n > 0 {
      NeedExact(g, SECTOR_SIZE * Mul(n, g.csize), n - 1, g.Bcs());
    }
  }

  /** Bytes that fit the clusters there are take no more. */
  lemma RoomFor(g: Geometry, n: nat, p: nat)
    requires g.WellFormed() && p <= SECTOR_SIZE * Mul(n, g.csize)
    ensures 0 < g.Bcs() && ClustersFor(p, g.Bcs()) <= n
  {
    MulScale(n, g.csize, SECTOR_SIZE);
    NeedAtMost(p, g.Bcs(), n);
  }

  lemma RoomAt(g: Geometry, n: nat, p: nat, link: nat, csect: nat)
    requires g.WellFormed() && link < n && csect < g.csize
    requires p % SECTOR_SIZE == 0 && p / SECTOR_SIZE == Mul(link, g.csize) + csect
    ensures 0 < g.Bcs() && ClustersFor(p + 1, g.Bcs()) <= n
  {
    MulMonotone(link + 1, n, g.csize);
    RoomFor(g, n, p + 1);
  }

  /** The test of `f_lseek` for staying in the current cluster or moving on from it. */
  predicate SameOrLaterCluster(t: nat, fptr: nat, bcs: nat)
    requires 0 < bcs && 0 < t && 0 < fptr
  {
    (t - 1) / bcs >= (fptr - 1) / bcs
  }

  /** That test asks whether the target lies past the start of the current cluster. */
  lemma ShortcutAllowed(g: Geometry, t: nat, fptr: nat, link: nat, csect: nat)
    requires 0 < t && 0 < fptr && 1 <= csect <= g.csize
    requires (fptr - 1) / SECTOR_SIZE == Mul(link, g.csize) + csect - 1
    ensures 0 < g.Bcs()
    ensures SameOrLaterCluster(t, fptr, g.Bcs()) <==> SECTOR_SIZE * Mul(link, g.csize) < t
  {
    CursorCluster(g, fptr, link, csect);
    MulScale(link, g.csize, SECTOR_SIZE);
    DivAtLeast(t - 1, g.Bcs(), link);
  }

  /** When it holds the target lies past that start, in any file. */
  lemma SeekAhead(g: Geometry, t: nat, fptr: nat)
    requires g.WellFormed() && 0 < t && 0 < fptr
    ensures 0 < g.Bcs()
    ensures SameOrLaterCluster(t, fptr, g.Bcs()) ==> StartOf(fptr - 1, g.Bcs()) < t
  {
    var b := g.Bcs();
    var k := (fptr - 1) / b;
    DivAtLeast(t - 1, b, k);
  }

  lemma DivAtLeast(x: nat, b: nat, k: nat)
    requires 0 < b
    ensures x / b >= k <==> Mul(k, b) <= x
  {
    var q := x / b;
    DivBounds(x, b);
    if k <= q {
      MulMonotone(k, q, b);
    } else {
      MulMonotone(q, k, b);
    }
  }

  lemma DivBounds(x: nat, b: nat)
    requires 0 < b
    ensures Mul(x / b, b) <= x < Mul(x / b, b) + b
  {
    MulIsProduct(x / b, b);
    assert x == x / b * b + x % b;
  }

  /** Two turns of `f_write` are a longer one. */
  lemma WrittenMore(c: seq<byte>, p: nat, b: seq<byte>, n: nat, k: nat)
    requires p <= |c| && n + k <= |b|
    ensures p + n <= |Overwrite(c, p, b[..n])|
    ensures Overwrite(Overwrite(c, p, b[..n]), p + n, b[n..][..k]) == Overwrite(c, p, b[..n + k])
  {
    OverwriteTwice(c, p, b[..n], b[n..][..k]);
    assert b[..n] + b[n..][..k] == b[..n + k];
  }

  lemma TurnsJoin(g: Geometry, v0: View, s0: seq<nat>, h0: History, v1: View, s1: seq<nat>, h1: History,
                  v2: View, s2: seq<nat>, h2: History)
    requires Extends(g, v0, s0, v1, s1) && Extends(g, v1, s1, v2, s2) && Clusters(g, s1) && Clusters(g, s2)
    requires s1 != [] ==> C.IsChain(Table(g, v1), s1)
    requires WentOn(g, h0, h1, Home(g, s1)) && WentOn(g, h1, h2, Home(g, s2))
    ensures Extends(g, v0, s0, v2, s2) && WentOn(g, h0, h2, Home(g, s2))
  {
    hide Extends, Table, WentOn, Home;
    ExtendsTrans(g, v0, s0, v1, s1, v2, s2);
    HomeGrows(g, v1, s1, v2, s2);
    WentOnTrans(g, h0, h1, h2, Home(g, s1), Home(g, s2), Home(g, s2));
  }

  /** The larger of two sizes. */
  function Max(a: nat, b: nat): nat { if a < b then b else a }

  /**
   * A store of `d` at byte `p` of a file: the table and every sector outside the file stay, the file
   * reaches to `m` and holds its old bytes with `d` written over them.
   */
  ghost predicate Stored(g: Geometry, org: nat, s: seq<nat>, v: View, n: nat, v': View, m: nat,
                         p: nat, d: seq<byte>)
    requires Placed(g, v, org, s, n)
  {
    && Placed(g, v', org, s, m)
    && Table(g, v') == Table(g, v)
    && Extends(g, v, s, v', s)
    && InView(v, Sectors(g, s)) && InView(v', Sectors(g, s))
    && p <= n <= m <= SECTOR_SIZE * |Sectors(g, s)|
    && Content(v', Sectors(g, s), m) == Overwrite(Content(v, Sectors(g, s), n), p, d)
  }

  /** Writing `cc` whole sectors that are consecutive on the drive. */
  lemma RunStored(g: Geometry, v: View, org: nat, s: seq<nat>, n: nat, j: nat, cc: nat, first: nat, d: seq<byte>)
    requires Placed(g, v, org, s, n) && |d| == SECTOR_SIZE * cc && 0 < cc
    requires j + cc <= |Sectors(g, s)| && SECTOR_SIZE * j <= n && SECTOR_SIZE * (j + cc) < TWO32
    requires forall k :: j <= k < j + cc ==> Sectors(g, s)[k] == first + (k - j)
    requires g.database <= first && first + cc <= g.nsects
    ensures Stored(g, org, s, v, n, Overlay(v, first, Chunks(d)), Max(n, SECTOR_SIZE * (j + cc)), SECTOR_SIZE * j, d)
  {
    hide Table, Sectors, Content, Overlay, Chunks, Extends, C.IsChain, Clusters;
    SpotsInView(g, v, s);
    SpotsInjective(g, v, s);
    ContentAfterOverlay(v, Sectors(g, s), n, j, cc, d);
    StoredInChain(g, v, s, Overlay(v, first, Chunks(d)), j, cc);
  }

  /** What a direct transfer of `cc` sectors from sector `r` of cluster `q` on does to a file. */
  lemma RunReady(g: Geometry, v: View, org: nat, s: seq<nat>, n: nat, q: nat, r: nat, cc: nat, d: seq<byte>)
    requires Placed(g, v, org, s, n) && |d| == SECTOR_SIZE * cc && 0 < cc
    requires q < |s| && r < g.csize && r + cc <= g.csize
    requires SECTOR_SIZE * (Mul(q, g.csize) + r) <= n && SECTOR_SIZE * (Mul(q, g.csize) + r + cc) < TWO32
    ensures g.ValidCluster(s[q]) && g.database <= g.ClusterBase(s[q])
    ensures var first := g.ClusterBase(s[q]) + r;
            var j := Mul(q, g.csize) + r;
            && first + cc <= g.nsects && |Chunks(d)| == cc
            && Stored(g, org, s, v, n, Overlay(v, first, Chunks(d)), Max(n, SECTOR_SIZE * (j + cc)), SECTOR_SIZE * j, d)
  {
    hide Table, Sectors, Content, Overlay, Chunks, Extends, C.IsChain, Clusters, Stored;
    RunOfCluster(g, s, q, r, cc);
    ClusterInRange(g, s[q]);
    RunStored(g, v, org, s, n, Mul(q, g.csize) + r, cc, g.ClusterBase(s[q]) + r, d);
  }

  /** Writing part of one sector of a file. */
  lemma PartStored(g: Geometry, v: View, org: nat, s: seq<nat>, n: nat, j: nat, o: nat, d: seq<byte>)
    requires Placed(g, v, org, s, n) && j < |Sectors(g, s)| && o + |d| <= SECTOR_SIZE
    requires SECTOR_SIZE * j + o <= n && SECTOR_SIZE * j + o + |d| < TWO32
    ensures Sectors(g, s)[j] < |v|
    ensures Stored(g, org, s, v, n, v[Sectors(g, s)[j] := Patch(v[Sectors(g, s)[j]], o, d)],
                   Max(n, SECTOR_SIZE * j + o + |d|), SECTOR_SIZE * j + o, d)
  {
    hide Table, Sectors, Content, Extends, C.IsChain, Clusters, Patch;
    SpotsInView(g, v, s);
    SpotsInjective(g, v, s);
    ContentAfterPatch(v, Sectors(g, s), n, j, o, d);
    StoredInChain(g, v, s, v[Sectors(g, s)[j] := Patch(v[Sectors(g, s)[j]], o, d)], j, 1);
  }

  /** Starting a new sector at the end of a file. */
  lemma FreshStored(g: Geometry, v: View, org: nat, s: seq<nat>, n: nat, j: nat, junk: Sector, d: seq<byte>)
    requires Placed(g, v, org, s, n) && j < |Sectors(g, s)| && |d| <= SECTOR_SIZE
    requires SECTOR_SIZE * j == n && n + |d| < TWO32
    ensures Sectors(g, s)[j] < |v|
    ensures Stored(g, org, s, v, n, v[Sectors(g, s)[j] := Patch(junk, 0, d)], n + |d|, n, d)
  {
    hide Table, Sectors, Content, Extends, C.IsChain, Clusters, Patch;
    SpotsInView(g, v, s);
    SpotsInjective(g, v, s);
    ContentAfterFresh(v, Sectors(g, s), n, j, junk, d);
    StoredInChain(g, v, s, v[Sectors(g, s)[j] := Patch(junk, 0, d)], j, 1);
  }

  /** Replacing a run of sectors of the chain. */
  lemma StoredInChain(g: Geometry, v: View, s: seq<nat>, v': View, j: nat, cc: nat)
    requires g.WellFormed() && g.Fits(v) && g.Fits(v') && Clusters(g, s)
    requires j < |Sectors(g, s)| && j + cc <= |Sectors(g, s)|
    requires forall k :: j <= k < j + cc ==> Sectors(g, s)[k] == Sectors(g, s)[j] + (k - j)
    requires forall x :: 0 <= x < g.nsects && !(Sectors(g, s)[j] <= x < Sectors(g, s)[j] + cc) ==> v'[x] == v[x]
    ensures Table(g, v') == Table(g, v)
    ensures Extends(g, v, s, v', s)
  {
    hide Sectors, Entries;
    SectorInData(g, s, j);
    TableKept(g, v, v');
    forall x | 0 <= x < g.nsects && !g.InFat(x) && v'[x] != v[x] ensures x in Sectors(g, s) {
      assert Sectors(g, s)[j + (x - Sectors(g, s)[j])] == x;
    }
  }

  /** Table stores do not touch the bytes of a file, and growing its chain only adds room. */
  lemma LiveKept(g: Geometry, v: View, s: seq<nat>, v': View, s': seq<nat>, n: nat)
    requires g.WellFormed() && Clusters(g, s) && Clusters(g, s') && s <= s' && OnlyFat(g, v, v')
    requires n <= SECTOR_SIZE * Mul(|s|, g.csize)
    ensures n <= SECTOR_SIZE * Mul(|s'|, g.csize)
    ensures InView(v, Sectors(g, s)) && InView(v', Sectors(g, s'))
    ensures Content(v', Sectors(g, s'), n) == Content(v, Sectors(g, s), n)
  {
    hide Sectors, Content;
    MulMonotone(|s|, |s'|, g.csize);
    SpotsInView(g, v, s);
    SpotsInView(g, v', s);
    SpotsInView(g, v', s');
    SectorsGrow(g, s, s');
    OutsideFat(g, v, v', s);
    ContentFrame(v, v', Sectors(g, s), n);
    var more := Sectors(g, s')[|Sectors(g, s)|..];
    assert Sectors(g, s) + more == Sectors(g, s');
    ContentPrefix(v', Sectors(g, s), more, n);
  }

  lemma OutsideFat(g: Geometry, v: View, v': View, s: seq<nat>)
    requires g.WellFormed() && Clusters(g, s) && OnlyFat(g, v, v')
    requires InView(v, Sectors(g, s))
    ensures forall j :: 0 <= j < |Sectors(g, s)| ==> v'[Sectors(g, s)[j]] == v[Sectors(g, s)[j]]
  {
    hide Sectors;
    forall j | 0 <= j < |Sectors(g, s)| ensures v'[Sectors(g, s)[j]] == v[Sectors(g, s)[j]] {
      SectorInData(g, s, j);
    }
  }

  /** The link of a cluster of a chain leads to the next one, and the last has none. */
  lemma LinkAt(g: Geometry, v: View, s: seq<nat>, at: nat)
    requires g.WellFormed() && g.Fits(v) && Clusters(g, s)
    requires s != [] ==> C.IsChain(Table(g, v), s)
    ensures at < |s| ==> g.ValidCluster(s[at])
    ensures at + 1 < |s| ==> g.ValidCluster(s[at + 1]) && Table(g, v)[s[at]] == s[at + 1]
    ensures at + 1 == |s| ==> Table(g, v)[s[at]] >= g.maxClust
  {
  }

  lemma ExtendsSame(g: Geometry, v: View, s: seq<nat>, v': View)
    requires g.WellFormed() && Clusters(g, s) && OnlyFat(g, v, v')
    requires Table(g, v') == Table(g, v)
    ensures Extends(g, v, s, v', s)
  {
  }

  /** Hanging a free cluster behind the chain. */
  lemma ExtendsLinked(g: Geometry, v: View, s: seq<nat>, v': View, r: nat, eoc: nat)
    requires g.WellFormed() && Clusters(g, s) && OnlyFat(g, v, v') && g.ValidCluster(r)
    requires s != [] ==> C.IsChain(Table(g, v), s)
    requires Table(g, v)[r] == 0 && eoc >= g.maxClust
    requires Table(g, v') == C.Linked(Table(g, v), if s == [] then 0 else s[|s| - 1], r, eoc)
    ensures Extends(g, v, s, v', s + [r])
    ensures C.IsChain(Table(g, v'), s + [r])
    ensures C.Clean(Table(g, v)) ==> C.Clean(Table(g, v'))
  {
    hide Table, Sectors;
    if s == [] {
      C.NewChain(Table(g, v), r, eoc);
      assert s + [r] == [r];
    } else {
      C.StretchChain(Table(g, v), s, r, eoc);
      assert s[|s| - 1] in s + [r];
    }
    assert r in s + [r];
  }

  /**
   * From view `v0` with chain `s0` to view `v` with chain `s`: the chain only grew, by clusters that
   * were free, and nothing changed but the table entries and the sectors of its clusters.
   */
  ghost predicate Extends(g: Geometry, v0: View, s0: seq<nat>, v: View, s: seq<nat>) {
    && g.WellFormed() && g.Fits(v0) && g.Fits(v) && Clusters(g, s)
    && s0 <= s
    && (forall i :: |s0| <= i < |s| ==> Table(g, v0)[s[i]] == 0)
    && (forall c :: 0 <= c < g.maxClust && c !in s ==> Table(g, v)[c] == Table(g, v0)[c])
    && (forall x :: 0 <= x < g.nsects && !g.InFat(x) && v[x] != v0[x] ==> x in Sectors(g, s))
  }

  lemma ExtendsRefl(g: Geometry, v: View, s: seq<nat>)
    requires g.WellFormed() && g.Fits(v) && Clusters(g, s)
    ensures Extends(g, v, s, v, s)
  {
  }

  /** Two extensions in a row are one. */
  lemma ExtendsTrans(g: Geometry, v0: View, s0: seq<nat>, v1: View, s1: seq<nat>, v2: View, s2: seq<nat>)
    requires Extends(g, v0, s0, v1, s1) && Extends(g, v1, s1, v2, s2)
    requires s1 != [] ==> C.IsChain(Table(g, v1), s1)
    ensures Extends(g, v0, s0, v2, s2)
  {
    hide Table;
    forall i | |s0| <= i < |s2| ensures Table(g, v0)[s2[i]] == 0 {
      if i < |s1| {
        assert s2[i] == s1[i];
      } else {
        NotOnChain(g, v1, s1, s2[i]);
      }
    }
    forall c | 0 <= c < g.maxClust && c !in s2 ensures Table(g, v2)[c] == Table(g, v0)[c] {
      PrefixMember(s1, s2, c);
    }
    forall x | 0 <= x < g.nsects && !g.InFat(x) && v2[x] != v0[x] ensures x in Sectors(g, s2) {
      if v2[x] == v1[x] {
        SectorsGrow(g, s1, s2);
        PrefixMember(Sectors(g, s1), Sectors(g, s2), x);
      }
    }
  }

  lemma PrefixMember(a: seq<nat>, b: seq<nat>, x: nat)
    requires a <= b
    ensures x in a ==> x in b
  {
    if x in a {
      var i :| 0 <= i < |a| && a[i] == x;
      assert b[i] == x;
    }
  }

  lemma NotOnChain(g: Geometry, v: View, s: seq<nat>, c: nat)
    requires g.WellFormed() && g.Fits(v) && g.ValidCluster(c) && Table(g, v)[c] == 0
    requires s != [] ==> C.IsChain(Table(g, v), s)
    ensures c !in s
  {
    if c in s {
      var i :| 0 <= i < |s| && s[i] == c;
      C.ChainInUse(Table(g, v), s, i);
    }
  }

  /** A longer chain keeps the sectors of the shorter one in place. */
  lemma {:induction false} SectorsGrow(g: Geometry, s: seq<nat>, u: seq<nat>)
    requires Clusters(g, u) && s <= u
    ensures Clusters(g, s) && Sectors(g, s) <= Sectors(g, u)
    decreases |u|
  {
    assert Clusters(g, s) by {
      forall i | 0 <= i < |s| ensures g.ValidCluster(s[i]) {
        assert u[i] == s[i];
      }
    }
    if |s| < |u| {
      SectorsGrow(g, s, u[..|u| - 1]);
    } else {
      assert s == u;
    }
  }

  /** Every other file survives: its chain, and its bytes. */
  lemma OthersKept(g: Geometry, v0: View, s0: seq<nat>, v: View, s: seq<nat>, o: seq<nat>, n: nat)
    requires Extends(g, v0, s0, v, s) && C.IsChain(Table(g, v0), o) && C.Apart(s0, o)
    requires n <= SECTOR_SIZE * Mul(|o|, g.csize)
    ensures C.IsChain(Table(g, v), o) && C.Apart(s, o) && Clusters(g, o)
    ensures InView(v0, Sectors(g, o)) && InView(v, Sectors(g, o))
    ensures Content(v, Sectors(g, o), n) == Content(v0, Sectors(g, o), n)
  {
    hide Table, Sectors, Content;
    forall i, j | 0 <= i < |s| && 0 <= j < |o| ensures s[i] != o[j] {
      if i < |s0| {
        assert s[i] == s0[i];
      } else {
        C.ChainInUse(Table(g, v0), o, j);
      }
    }
    C.ChainFrame(Table(g, v0), Table(g, v), o);
    SpotsInView(g, v0, o);
    SpotsInView(g, v, o);
    forall j | 0 <= j < |Sectors(g, o)| ensures v[Sectors(g, o)[j]] == v0[Sectors(g, o)[j]] {
      SectorInData(g, o, j);
      if Sectors(g, o)[j] in Sectors(g, s) {
        var i :| 0 <= i < |Sectors(g, s)| && Sectors(g, s)[i] == Sectors(g, o)[j];
        SectorsApart(g, s, o, i, j);
      }
    }
    ContentFrame(v0, v, Sectors(g, o), n);
  }

  /** The drive shows the logical disk in a run of sectors, except where the window is dirty. */
  lemma RunShown(g: Geometry, s: seq<nat>, q: nat, r: nat, cc: nat, v: View, medium: View,
                 winsect: nat, wflag: bool, u: View)
    requires g.WellFormed() && g.Fits(v) && g.Fits(medium) && Clusters(g, s)
    requires q < |s| && r < g.csize && r + cc <= g.csize && winsect < g.nsects
    requires forall s :: g.Seen(s) && !(wflag && s == winsect) ==> medium[s] == v[s]
    requires Mul(q, g.csize) + r < |Sectors(g, s)|
    requires var first := Sectors(g, s)[Mul(q, g.csize) + r];
             u == if wflag && first <= winsect < first + cc then v[winsect := medium[winsect]] else v
    ensures Mul(q, g.csize) + r + cc <= |Sectors(g, s)|
    ensures forall k :: Mul(q, g.csize) + r <= k < Mul(q, g.csize) + r + cc ==>
              k < |Sectors(g, s)| && Sectors(g, s)[k] < |u| == |medium| &&
              medium[Sectors(g, s)[k]] == u[Sectors(g, s)[k]]
  {
    RunOfCluster(g, s, q, r, cc);
    forall k | Mul(q, g.csize) + r <= k < Mul(q, g.csize) + r + cc
      ensures Sectors(g, s)[k] < |u| && medium[Sectors(g, s)[k]] == u[Sectors(g, s)[k]]
    {
      SectorInData(g, s, k);
    }
  }

  lemma SpotsInjective(g: Geometry, v: View, s: seq<nat>)
    requires g.WellFormed() && g.Fits(v) && Clusters(g, s)
    requires s != [] ==> C.IsChain(Table(g, v), s)
    ensures Injective(Sectors(g, s))
  {
    if s != [] {
      C.ChainDistinct(Table(g, v), s);
    }
    forall i, j | 0 <= i < |Sectors(g, s)| && 0 <= j < |Sectors(g, s)| && Sectors(g, s)[i] == Sectors(g, s)[j]
      ensures i == j
    {
      SectorsDistinct(g, s, i, j);
    }
  }

  /** An earlier sector of the file is not one of a later run. */
  lemma BehindRun(g: Geometry, v: View, s: seq<nat>, at: nat, j: nat, cc: nat)
    requires g.WellFormed() && g.Fits(v) && Clusters(g, s) && s != [] && C.IsChain(Table(g, v), s)
    requires at < j && j + cc <= |Sectors(g, s)| && j < |Sectors(g, s)|
    requires forall k :: j <= k < j + cc ==> Sectors(g, s)[k] == Sectors(g, s)[j] + (k - j)
    ensures !(Sectors(g, s)[j] <= Sectors(g, s)[at] < Sectors(g, s)[j] + cc)
  {
    SpotsInjective(g, v, s);
    if cc > 0 {
      OutsideRun(Sectors(g, s), j, cc, at);
    }
  }

  /** Consecutive sectors of one cluster are consecutive in the file. */
  lemma RunOfCluster(g: Geometry, s: seq<nat>, q: nat, r: nat, cc: nat)
    requires Clusters(g, s) && q < |s| && r + cc <= g.csize && r < g.csize
    ensures g.ValidCluster(s[q])
    ensures var j := Mul(q, g.csize) + r;
            && j + cc <= |Sectors(g, s)| && j < |Sectors(g, s)|
            && Sectors(g, s)[j] == g.ClusterBase(s[q]) + r
            && forall k :: j <= k < j + cc ==> Sectors(g, s)[k] == Sectors(g, s)[j] + (k - j)
  {
    var j := Mul(q, g.csize) + r;
    SectorAt(g, s, q, r);
    if cc > 0 {
      SectorAt(g, s, q, r + cc - 1);
    }
    forall k | j <= k < j + cc ensures Sectors(g, s)[k] == Sectors(g, s)[j] + (k - j) {
      SectorAt(g, s, q, r + (k - j));
    }
  }

  /** At a cluster boundary inside the file there is a next cluster. */
  lemma BoundaryLink(g: Geometry, n: nat, fptr: nat, link: nat, csect: nat)
    requires 0 < fptr && fptr % SECTOR_SIZE == 0 && csect == g.csize
    requires 1 <= csect && (fptr - 1) / SECTOR_SIZE == Mul(link, g.csize) + csect - 1
    ensures fptr / SECTOR_SIZE == Mul(link + 1, g.csize)
    ensures fptr < SECTOR_SIZE * Mul(n, g.csize) ==> link + 1 < n
    ensures Mul(0, g.csize) == 0
  {
    if n <= link + 1 {
      MulMonotone(n, link + 1, g.csize);
    }
  }

  lemma SpotsInView(g: Geometry, v: View, s: seq<nat>)
    requires g.WellFormed() && g.Fits(v) && Clusters(g, s)
    ensures InView(v, Sectors(g, s))
    ensures SECTOR_SIZE * Mul(|s|, g.csize) == SECTOR_SIZE * |Sectors(g, s)|
  {
    forall j | 0 <= j < |Sectors(g, s)| ensures Sectors(g, s)[j] < |v| {
      SectorInData(g, s, j);
    }
  }
}
