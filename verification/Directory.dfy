/** Directory tables: `dir_seek`, `dir_next`, `dir_find`, `dir_register`. */
module Directory {
  import opened Bytes
  import opened DirEntry
  import opened Layout
  import opened FileData
  import opened Volume
  import opened FileIo
  import opened Listing
  import C = Chains

  const ENTRIES_PER_SECTOR := 16

  class Dir {
    const fs: FatFs
    const sclust: nat     // table start cluster, 0 for the static root table
    var index: nat
    var clust: nat
    var sect: nat
    var ofs: nat          // where the entry lies in the window (`dir` as an offset)

    /** The clusters of a dynamic table. */
    ghost var chain: seq<nat>

    /** The index in `chain` of `clust`. */
    ghost var link: nat

    constructor (fs: FatFs, sclust: nat, ghost chain: seq<nat>)
      requires fs.Valid() && TableOf(fs.geo, fs.view, sclust, chain)
      ensures this.fs == fs && this.sclust == sclust && this.chain == chain
    {
      this.fs, this.sclust, this.chain := fs, sclust, chain;
      index, clust, sect, ofs, link := 0, 0, 0, 0, 0;
    }

    ghost predicate Valid()
      reads `chain, fs, fs.win, fs.disk
    {
      fs.Valid() && TableOf(fs.geo, fs.view, sclust, chain)
    }

    /** The sectors of the table in order. */
    ghost function Spots(): seq<nat>
      requires fs.geo.WellFormed() && Clusters(fs.geo, chain)
      reads `chain
    {
      TableSectors(fs.geo, sclust, chain)
    }

    /** The entries of the table as a reader of the volume sees them. */
    ghost function Listed(): (r: seq<Entry>)
      requires TableOf(fs.geo, fs.view, sclust, chain)
      reads `chain, fs`view
    {
      TableItems(fs.geo, fs.view, sclust, chain)
    }

    /** The object stands on entry `i`. */
    ghost predicate At(i: nat)
      requires fs.geo.WellFormed() && Clusters(fs.geo, chain)
      reads `index, `clust, `sect, `ofs, `link, `chain
    {
      index == i && ofs == i % ENTRIES_PER_SECTOR * ENTRY_SIZE && OnSector(i)
    }

    /** `dir_seek`. */
    method Seek(idx: nat) returns (res: Fresult)
      requires Valid() && idx < 0x1_0000
      modifies `index, `clust, `sect, `ofs, `link
      modifies fs`winsect, fs`wflag, fs`stamps, fs`exempt, fs.win, fs.disk
      ensures Valid()
      ensures res == FrOk || res == FrIntErr || res == FrDiskErr
      ensures res == FrOk ==> At(idx)
      ensures res == FrIntErr ==> |Spots()| <= idx / ENTRIES_PER_SECTOR
      ensures fs.disk.reliable ==> res != FrDiskErr
      ensures WentOn(fs.geo, old(fs.Past()), fs.Past(), {})
    {
      hide Table, FatFs.Coherent, FatFs.Logged, FatFs.Current, Sectors, C.IsChain;
      hide WentOn;
      fs.NothingYet();
      index := idx;
      var clst := sclust;
      if clst == 1 || clst >= fs.geo.maxClust {
        return FrIntErr;
      }
      if clst == 0 {
        if idx >= fs.geo.nRootdir {
          return FrIntErr;
        }
        sect := fs.geo.dirbase + idx / ENTRIES_PER_SECTOR;
        ofs := idx % ENTRIES_PER_SECTOR * ENTRY_SIZE;
        return FrOk;
      }
      res := SeekChain(idx);
    }

    /** `dir_seek` in a dynamic table. */
    method SeekChain(idx: nat) returns (res: Fresult)
      requires Valid() && index == idx && fs.geo.ValidCluster(sclust)
      modifies `clust, `sect, `ofs, `link
      modifies fs`winsect, fs`wflag, fs`stamps, fs`exempt, fs.win, fs.disk
      ensures Valid()
      ensures res == FrOk || res == FrIntErr || res == FrDiskErr
      ensures res == FrOk ==> At(idx)
      ensures res == FrIntErr ==> |Spots()| <= idx / ENTRIES_PER_SECTOR
      ensures fs.disk.reliable ==> res != FrDiskErr
      ensures WentOn(fs.geo, old(fs.Past()), fs.Past(), {})
    {
      hide Table, FatFs.Coherent, FatFs.Logged, FatFs.Current, Sectors, C.IsChain, Mul;
      hide WentOn;
      var clst, rest;
      res, clst, rest := Follow(idx);
      if res == FrOk {
        clust := clst;
        Landing(fs.geo, chain, idx, link, rest);
        sect := fs.Clust2Sect(clst) + rest / ENTRIES_PER_SECTOR;
        ofs := rest % ENTRIES_PER_SECTOR * ENTRY_SIZE;
      }
    }

    /** `dir_seek`: follow the chain to the cluster that holds entry `idx`. */
    method Follow(idx: nat) returns (res: Fresult, clst: nat, rest: nat)
      requires Valid() && fs.geo.ValidCluster(sclust)
      modifies `link
      modifies fs`winsect, fs`wflag, fs`stamps, fs`exempt, fs.win, fs.disk
      ensures Valid()
      ensures res == FrOk || res == FrIntErr || res == FrDiskErr
      ensures fs.disk.reliable ==> res != FrDiskErr
      ensures res == FrOk ==>
                && link < |chain| && clst == chain[link]
                && rest < ENTRIES_PER_SECTOR * fs.geo.csize
                && idx == ENTRIES_PER_SECTOR * Mul(link, fs.geo.csize) + rest
      ensures res == FrIntErr ==> |Spots()| <= idx / ENTRIES_PER_SECTOR
      ensures WentOn(fs.geo, old(fs.Past()), fs.Past(), {})
    {
      hide Table, FatFs.Coherent, FatFs.Logged, FatFs.Current, Sectors, C.IsChain;
      hide WentOn;
      fs.NothingYet();
      var ic := ENTRIES_PER_SECTOR * fs.geo.csize;
      clst, rest, link := sclust, idx, 0;
      while rest >= ic
        invariant Valid() && 0 <= rest && link < |chain| && clst == chain[link]
        invariant idx == ENTRIES_PER_SECTOR * Mul(link, fs.geo.csize) + rest
        invariant WentOn(fs.geo, old(fs.Past()), fs.Past(), {})
        decreases rest
      {
        LinkAt(fs.geo, fs.view, chain, link);
        ghost var h := fs.Past();
        fs.NothingYet();
        clst := fs.GetCluster(clst);
        WentOnQuietly(fs.geo, h, fs.Past(), {});
        WentOnTrans(fs.geo, old(fs.Past()), h, fs.Past(), {}, {}, {});
        if clst == DISK_ERROR {
          return FrDiskErr, clst, rest;
        }
        if clst < 2 || clst >= fs.geo.maxClust {
          return FrIntErr, clst, rest;
        }
        rest := rest - ic;
        link := link + 1;
      }
      res := FrOk;
    }

    /** Entry `i` lies in the sector the object stands on. */
    ghost predicate OnSector(i: nat)
      requires fs.geo.WellFormed() && Clusters(fs.geo, chain)
      reads `clust, `sect, `link, `chain
    {
      && i / ENTRIES_PER_SECTOR < |Spots()| && sect == Spots()[i / ENTRIES_PER_SECTOR]
      && (sclust != 0 ==>
            && link < |chain| && clust == chain[link]
            && Mul(link, fs.geo.csize) <= i / ENTRIES_PER_SECTOR < Mul(link, fs.geo.csize) + fs.geo.csize)
    }

    /** Where entry `i` is, told from the fields alone. */
    ghost predicate InPlace(i: nat)
      requires fs.geo.WellFormed()
      reads `clust, `sect
    {
      if sclust == 0 then i < fs.geo.nRootdir && sect == fs.geo.dirbase + i / ENTRIES_PER_SECTOR
      else fs.geo.ValidCluster(clust) && sect == fs.geo.ClusterBase(clust) + i / ENTRIES_PER_SECTOR % fs.geo.csize
    }

    /** The object stands on some entry, whatever became of the table. */
    ghost predicate Steady()
      reads `index, `clust, `sect, `ofs, fs, fs.win, fs.disk
    {
      && fs.geo.WellFormed() && fs.geo.Fits(fs.view) && fs.Valid()
      && index < MAX_ENTRIES && ofs == index % ENTRIES_PER_SECTOR * ENTRY_SIZE && InPlace(index)
    }

    lemma AtInPlace(i: nat)
      requires Valid() && OnSector(i)
      ensures InPlace(i) && i < |Listed()|
    {
      hide Table, Sectors, C.IsChain, FatFs.Valid, TableItems;
      if sclust != 0 {
        var q := i / ENTRIES_PER_SECTOR;
        var r := q - Mul(link, fs.geo.csize);
        SectorAt(fs.geo, chain, link, r);
        MulIsProduct(link, fs.geo.csize);
        DivUnique(q, link, r, fs.geo.csize);
      }
    }

    lemma InPlaceBounds(i: nat)
      requires fs.geo.WellFormed() && InPlace(i)
      ensures fs.geo.Windowed(sect) && !fs.geo.InFat(sect) && sect != 0
    {
      if sclust != 0 {
        ClusterInRange(fs.geo, clust);
      }
    }

    /** Entry `i` lies in the sector of the one before it, unless that was the last there. */
    lemma SameSector(i: nat, sure: bool)
      requires fs.geo.WellFormed() && 0 < i && InPlace(i - 1)
      requires sure ==> Clusters(fs.geo, chain) && OnSector(i - 1)
      ensures i % ENTRIES_PER_SECTOR != 0 ==> InPlace(i) && (sure ==> OnSector(i) && i < ENTRIES_PER_SECTOR * |Spots()|)
    {
      hide Sectors, TableSectors;
    }

    /** Since view `v0` and chain `s0` the table got one more cluster, of cleared entries. */
    ghost predicate Stretched(v0: View, s0: seq<nat>)
      requires TableOf(fs.geo, v0, sclust, s0) && TableOf(fs.geo, fs.view, sclust, chain)
      reads `chain, fs`view
    {
      && sclust != 0 && !C.NoFree(Table(fs.geo, v0)) && C.Clean(fs.Tab())
      && Extends(fs.geo, v0, s0, fs.view, chain)
      && Listed() == TableItems(fs.geo, v0, sclust, s0) + ClearedMany(ENTRIES_PER_SECTOR * fs.geo.csize)
    }

    /**
     * `dir_next`: on to the next entry; with `stretch`, a full dynamic table gets one more cluster.
     * Here and below `sure` says that the table is intact and, if it may be stretched, that the drive
     * is reliable and the table of links clean.
     */
    method Next(stretch: bool, ghost sure: bool) returns (res: Fresult)
      requires Steady()
      requires sure ==> Valid() && At(index) && (stretch ==> fs.disk.reliable && C.Clean(fs.Tab()))
      modifies `index, `clust, `sect, `ofs, `link, `chain
      modifies fs`winsect, fs`wflag, fs`stamps, fs`exempt, fs`view, fs`log, fs`freeClust, fs`fsiFlag, fs`lastClust
      modifies fs.win, fs.disk
      ensures fs.Valid()
      ensures res == FrOk ==> Steady() && index == old(index) + 1
      ensures res != FrOk ==> index == old(index)
      ensures WentOn(fs.geo, old(fs.Past()), fs.Past(), {})
      ensures sure ==> Valid()
      ensures sure && res == FrOk ==> At(index)
      ensures sure && res == FrNoFile ==>
                old(index) + 1 == MAX_ENTRIES || (old(index) + 1 == |old(Listed())| && (!stretch || sclust == 0))
      ensures sure && fs.disk.reliable ==> res == FrOk || res == FrNoFile || res == FrDenied
      ensures sure && res == FrDenied ==>
                stretch && sclust != 0 && old(index) + 1 == |old(Listed())| && C.NoFree(old(fs.Tab()))
      ensures sure && res == FrOk && old(index) + 1 == |old(Listed())| ==>
                stretch && Stretched(old(fs.view), old(chain))
      ensures sure && !(res == FrOk && old(index) + 1 == |old(Listed())|) ==>
                fs.view == old(fs.view) && chain == old(chain)
      ensures sure && old(fs.CountOk()) && fs.disk.reliable ==> fs.CountOk()
    {
      hide Table, FatFs.Coherent, FatFs.Logged, FatFs.Current, Sectors, C.IsChain, C.Clean, C.NoFree, Extends, Items;
      hide C.FreeCount, Dir.Stretched, TableItems, TableSectors, FatFs.Valid, Dir.OnSector, Dir.InPlace;
      hide WentOn;
      fs.NothingYet();
      InPlaceBounds(index);
      var i := (index + 1) % 0x1_0000;
      if i == 0 || sect == 0 {
        return FrNoFile;
      }
      SameSector(i, sure);
      if i % ENTRIES_PER_SECTOR == 0 {
        res := NextSector(i, stretch, sure);
        if res != FrOk {
          return;
        }
      }
      index := i;
      ofs := i % ENTRIES_PER_SECTOR * ENTRY_SIZE;
      fs.Standing();
      return FrOk;
    }

    /** `dir_next` at the end of a sector. */
    method NextSector(i: nat, stretch: bool, ghost sure: bool) returns (res: Fresult)
      requires fs.geo.WellFormed() && fs.geo.Fits(fs.view) && fs.Valid()
      requires 0 < i && i % ENTRIES_PER_SECTOR == 0 && InPlace(i - 1)
      requires sure ==> Valid() && OnSector(i - 1) && (stretch ==> fs.disk.reliable && C.Clean(fs.Tab()))
      modifies `clust, `sect, `link, `chain
      modifies fs`winsect, fs`wflag, fs`stamps, fs`exempt, fs`view, fs`log, fs`freeClust, fs`fsiFlag, fs`lastClust
      modifies fs.win, fs.disk
      ensures fs.Valid()
      ensures res == FrOk ==> InPlace(i)
      ensures WentOn(fs.geo, old(fs.Past()), fs.Past(), {})
      ensures sure ==> Valid()
      ensures sure && res == FrOk ==> OnSector(i)
      ensures sure && res == FrNoFile ==> i == |old(Listed())| && (!stretch || sclust == 0)
      ensures sure && fs.disk.reliable ==> res == FrOk || res == FrNoFile || res == FrDenied
      ensures sure && res == FrDenied ==> stretch && sclust != 0 && i == |old(Listed())| && C.NoFree(old(fs.Tab()))
      ensures sure && res == FrOk && i == |old(Listed())| ==> stretch && Stretched(old(fs.view), old(chain))
      ensures sure && !(res == FrOk && i == |old(Listed())|) ==> fs.view == old(fs.view) && chain == old(chain)
      ensures sure && old(fs.CountOk()) && fs.disk.reliable ==> fs.CountOk()
    {
      hide Table, FatFs.Coherent, FatFs.Logged, FatFs.Current, Sectors, C.IsChain, C.Clean, C.NoFree, Extends, Items;
      hide C.FreeCount, Dir.Stretched, TableItems, TableSectors, FatFs.Valid, Mul;
      hide WentOn;
      fs.NothingYet();
      if sclust != 0 {
        NextSpot(i, sure);
      } else {
        NextInRoot(i, sure);
      }
      sect := sect + 1;
      if sclust == 0 {
        return if i >= fs.geo.nRootdir then FrNoFile else FrOk;
      }
      res := FrOk;
      if i / ENTRIES_PER_SECTOR % fs.geo.csize == 0 {
        res := NextCluster(stretch, sure);
        if sure && res == FrOk {
          FirstSpot();
        }
      }
    }

    /** In the static root table the next sector is the next one of the drive, as long as there are entries. */
    lemma NextInRoot(i: nat, sure: bool)
      requires fs.geo.WellFormed() && sclust == 0 && 0 < i && i % ENTRIES_PER_SECTOR == 0 && InPlace(i - 1)
      requires sure ==> Valid() && OnSector(i - 1)
      ensures sect + 1 == fs.geo.dirbase + i / ENTRIES_PER_SECTOR
      ensures sure && i < fs.geo.nRootdir ==>
                i / ENTRIES_PER_SECTOR < |Spots()| && sect + 1 == Spots()[i / ENTRIES_PER_SECTOR] && i < |Listed()|
      ensures sure && i >= fs.geo.nRootdir ==> i == |Listed()|
    {
      hide Table, C.IsChain, FatFs.Valid, TableItems;
    }

    /** The first sector of the current cluster. */
    lemma FirstSpot()
      requires Valid() && sclust != 0 && link < |chain| && clust == chain[link] && sect == fs.geo.ClusterBase(clust)
      ensures var q := Mul(link, fs.geo.csize); q < |Spots()| && sect == Spots()[q]
    {
      hide Table, Sectors, C.IsChain, FatFs.Valid;
      SectorAt(fs.geo, chain, link, 0);
    }

    /** The sector after the one of entry `i - 1`: the next of its cluster, unless that was its last. */
    lemma NextSpot(i: nat, sure: bool)
      requires fs.geo.WellFormed() && sclust != 0 && 0 < i && i % ENTRIES_PER_SECTOR == 0 && InPlace(i - 1)
      requires sure ==> Valid() && OnSector(i - 1)
      ensures var q := i / ENTRIES_PER_SECTOR;
              && (q % fs.geo.csize != 0 ==>
                    && sect + 1 == fs.geo.ClusterBase(clust) + q % fs.geo.csize
                    && (sure ==>
                          && q < |Spots()| && sect + 1 == Spots()[q]
                          && Mul(link, fs.geo.csize) <= q < Mul(link, fs.geo.csize) + fs.geo.csize))
              && (sure && q % fs.geo.csize == 0 ==>
                    q == Mul(link + 1, fs.geo.csize) && (q == |Spots()| <==> link + 1 == |chain|))
    {
      hide Table, Sectors, C.IsChain, FatFs.Valid;
      var q := i / ENTRIES_PER_SECTOR;
      if q % fs.geo.csize != 0 {
        NextInTurn(q, fs.geo.csize);
      }
      if sure {
        SectorTurn(fs.geo, chain, q, link);
      }
    }

    /** `dir_next` at the end of a cluster. */
    method NextCluster(stretch: bool, ghost sure: bool) returns (res: Fresult)
      requires fs.geo.WellFormed() && fs.geo.Fits(fs.view) && fs.Valid() && fs.geo.ValidCluster(clust)
      requires sure ==> Valid() && sclust != 0 && link < |chain| && clust == chain[link]
      requires sure && stretch ==> fs.disk.reliable && C.Clean(fs.Tab())
      modifies `clust, `sect, `link, `chain
      modifies fs`winsect, fs`wflag, fs`stamps, fs`exempt, fs`view, fs`log, fs`freeClust, fs`fsiFlag, fs`lastClust
      modifies fs.win, fs.disk
      ensures fs.Valid()
      ensures res == FrOk ==> fs.geo.ValidCluster(clust) && sect == fs.geo.ClusterBase(clust)
      ensures WentOn(fs.geo, old(fs.Past()), fs.Past(), {})
      ensures sure ==> Valid()
      ensures sure && res == FrOk ==> link == old(link) + 1 < |chain| && clust == chain[link]
      ensures sure && res == FrNoFile ==> !stretch && old(link) + 1 == |old(chain)|
      ensures sure && fs.disk.reliable ==> res == FrOk || res == FrNoFile || res == FrDenied
      ensures sure && res == FrDenied ==> stretch && old(link) + 1 == |old(chain)| && C.NoFree(old(fs.Tab()))
      ensures sure && res == FrOk && old(link) + 1 == |old(chain)| ==> stretch && Stretched(old(fs.view), old(chain))
      ensures sure && !(res == FrOk && old(link) + 1 == |old(chain)|) ==>
                fs.view == old(fs.view) && chain == old(chain)
      ensures sure && old(fs.CountOk()) && fs.disk.reliable ==> fs.CountOk()
    {
      hide Table, FatFs.Coherent, FatFs.Logged, FatFs.Current, Sectors, C.IsChain, C.Clean, C.NoFree, Extends, Items;
      hide C.FreeCount, WentOn;
      fs.NothingYet();
      ghost var h := fs.Past();
      if sure {
        LinkAt(fs.geo, fs.view, chain, link);
      }
      var clst := fs.GetCluster(clust);
      ghost var h1 := fs.Past();
      WentOnQuietly(fs.geo, h, h1, {});
      if clst <= 1 || clst == DISK_ERROR {
        return if clst <= 1 then FrIntErr else FrDiskErr;
      }
      if clst >= fs.geo.maxClust {
        if !stretch {
          return FrNoFile;
        }
        res, clst := Stretch(sure);
        WentOnTrans(fs.geo, h, h1, fs.Past(), {}, {}, {});
        if res != FrOk {
          return;
        }
      }
      link := link + 1;
      clust := clst;
      sect := fs.Clust2Sect(clst);
      return FrOk;
    }

    /** `dir_next`: hang a cleared cluster behind the table. */
    method Stretch(ghost sure: bool) returns (res: Fresult, clst: nat)
      requires fs.geo.WellFormed() && fs.Valid()
      requires sure ==> Valid() && sclust != 0 && link + 1 == |chain| && clust == chain[link]
      requires sure ==> fs.disk.reliable && C.Clean(fs.Tab())
      modifies `chain
      modifies fs`winsect, fs`wflag, fs`stamps, fs`exempt, fs`view, fs`log, fs`freeClust, fs`fsiFlag, fs`lastClust
      modifies fs.win, fs.disk
      ensures fs.Valid()
      ensures res == FrOk || res == FrDenied || res == FrIntErr || res == FrDiskErr
      ensures res == FrOk ==> fs.geo.ValidCluster(clst)
      ensures res == FrDenied ==> fs.view == old(fs.view)
      ensures WentOn(fs.geo, old(fs.Past()), fs.Past(), {})
      ensures sure ==> Valid() && C.Clean(fs.Tab()) && (res == FrOk || res == FrDenied)
      ensures sure && res == FrDenied ==> C.NoFree(old(fs.Tab())) && chain == old(chain)
      ensures sure && res == FrOk ==> chain == old(chain) + [clst] && Stretched(old(fs.view), old(chain))
      ensures sure && old(fs.CountOk()) ==> fs.CountOk()
    {
      hide Table, FatFs.Coherent, FatFs.Logged, FatFs.Current, Sectors, C.IsChain, C.Clean, C.NoFree, Extends, Items;
      hide C.FreeCount, Overlay, Blanks, OnlyFat, C.Linked, C.Search, WentOn;
      ghost var h := fs.Past();
      ghost var v0, s0, t := fs.view, chain, fs.Tab();
      if sure {
        LinkAt(fs.geo, fs.view, chain, link);
        C.SearchAll(t, clust);
      }
      clst := fs.CreateChain(clust);
      if clst <= 1 || clst == DISK_ERROR {
        return if clst == 0 then FrDenied else if clst == 1 then FrIntErr else FrDiskErr, clst;
      }
      ghost var v1 := fs.view;
      if sure {
        C.SearchHit(t, clust, 1);
        ExtendsLinked(fs.geo, v0, s0, v1, clst, fs.EndMark());
      }
      ClusterInRange(fs.geo, clst);
      ghost var done, h1 := 0, fs.Past();
      res, done := fs.FillBlank(fs.Clust2Sect(clst));
      WentOnTrans(fs.geo, h, h1, fs.Past(), {}, {}, {});
      if sure {
        chain := chain + [clst];
        StretchedTable(fs.geo, v0, s0, v1, clst);
        StretchedItems(fs.geo, v0, s0, v1, clst);
      }
    }

    /** Make the current entry appear in the window. */
    method Load(ghost sure: bool) returns (res: Fresult, e: Entry)
      requires Steady()
      requires sure ==> Valid() && At(index)
      modifies fs`winsect, fs`wflag, fs`stamps, fs`exempt, fs.win, fs.disk
      ensures fs.Valid()
      ensures res == FrOk || res == FrDiskErr
      ensures fs.disk.reliable ==> res == FrOk
      ensures WentOn(fs.geo, old(fs.Past()), fs.Past(), {})
      ensures sure ==> Valid() && index < |Listed()|
      ensures sure && res == FrOk ==> fs.winsect == sect && e == Listed()[index]
    {
      hide Table, FatFs.Coherent, FatFs.Logged, FatFs.Current, Sectors, C.IsChain, TableOf, Cleared, WentOn;
      hide Dir.InPlace;
      if sure {
        TableInView(fs.geo, fs.view, sclust, chain);
      }
      InPlaceBounds(index);
      assert ofs + ENTRY_SIZE <= SECTOR_SIZE;
      ghost var h := fs.Past();
      fs.NothingYet();
      res := fs.MoveWindow(sect);
      WentOnQuietly(fs.geo, h, fs.Past(), {});
      e := if res == FrOk then fs.win[ofs..ofs + ENTRY_SIZE] else Cleared();
    }

    /** `dir_find`. */
    method Find(fn: Name) returns (res: Fresult)
      requires Valid()
      modifies `index, `clust, `sect, `ofs, `link, `chain
      modifies fs`winsect, fs`wflag, fs`stamps, fs`exempt, fs`view, fs`log, fs`freeClust, fs`fsiFlag, fs`lastClust
      modifies fs.win, fs.disk
      ensures Valid() && fs.view == old(fs.view) && chain == old(chain)
      ensures res == FrOk ==> Lookup(Listed(), fn, 0) == Some(index) && At(index) && fs.winsect == sect
      ensures res == FrNoFile ==> Lookup(Listed(), fn, 0) == None
      ensures fs.disk.reliable && Listed() != [] ==> res == FrOk || res == FrNoFile
      ensures old(fs.CountOk()) && fs.disk.reliable ==> fs.CountOk()
      ensures WentOn(fs.geo, old(fs.Past()), fs.Past(), {})
    {
      hide Table, FatFs.Coherent, FatFs.Logged, FatFs.Current, Sectors, C.IsChain, C.FreeCount, TableItems, Matches;
      hide Dir.OnSector;
      hide WentOn;
      ghost var items := Listed();
      res := Seek(0);
      var stop := res != FrOk;
      while !stop
        invariant Valid() && fs.view == old(fs.view) && chain == old(chain)
        invariant !stop ==> res == FrOk && index < MAX_ENTRIES && At(index)
        invariant !stop ==> Lookup(items, fn, 0) == Lookup(items, fn, index)
        invariant stop && res == FrOk ==> Lookup(items, fn, 0) == Some(index) && At(index) && fs.winsect == sect
        invariant res == FrNoFile ==> Lookup(items, fn, 0) == None
        invariant fs.disk.reliable && items != [] ==> res == FrOk || res == FrNoFile
        invariant old(fs.CountOk()) && fs.disk.reliable ==> fs.CountOk()
        invariant WentOn(fs.geo, old(fs.Past()), fs.Past(), {})
        decreases !stop, MAX_ENTRIES - index
      {
        ghost var h := fs.Past();
        res, stop := Examine(fn);
        WentOnTrans(fs.geo, old(fs.Past()), h, fs.Past(), {}, {}, {});
      }
    }

    /** `dir_find`: one turn of the loop. */
    method Examine(fn: Name) returns (res: Fresult, stop: bool)
      requires Valid() && index < MAX_ENTRIES && At(index)
      modifies `index, `clust, `sect, `ofs, `link, `chain
      modifies fs`winsect, fs`wflag, fs`stamps, fs`exempt, fs`view, fs`log, fs`freeClust, fs`fsiFlag, fs`lastClust
      modifies fs.win, fs.disk
      ensures Valid() && fs.view == old(fs.view) && chain == old(chain)
      ensures old(fs.CountOk()) && fs.disk.reliable ==> fs.CountOk()
      ensures !stop ==>
                && res == FrOk && old(index) < index < MAX_ENTRIES && At(index)
                && Lookup(Listed(), fn, old(index)) == Lookup(Listed(), fn, index)
      ensures stop && res == FrOk ==>
                index == old(index) && Lookup(Listed(), fn, index) == Some(index) && At(index) && fs.winsect == sect
      ensures res == FrNoFile ==> Lookup(Listed(), fn, old(index)) == None
      ensures fs.disk.reliable ==> res == FrOk || res == FrNoFile
      ensures WentOn(fs.geo, old(fs.Past()), fs.Past(), {})
    {
      hide Table, FatFs.Coherent, FatFs.Logged, FatFs.Current, Sectors, C.IsChain, C.FreeCount, TableItems, Matches;
      hide Dir.OnSector, WentOn;
      var e;
      AtInPlace(index);
      res, e := Load(true);
      stop := true;
      if res != FrOk {
        return;
      }
      if EndsTable(e) {
        res := FrNoFile;
        return;
      }
      if Matches(e, fn) {
        return;
      }
      ghost var h, h1 := old(fs.Past()), fs.Past();
      res := Next(false, true);
      WentOnTrans(fs.geo, h, h1, fs.Past(), {}, {}, {});
      stop := res != FrOk;
    }

    /** `dir_register`: stand on the first vacant entry, stretching a full dynamic table. */
    method FindVacant(ghost sure: bool) returns (res: Fresult)
      requires Valid()
      requires sure ==> fs.disk.reliable && C.Clean(fs.Tab())
      modifies `index, `clust, `sect, `ofs, `link, `chain
      modifies fs`winsect, fs`wflag, fs`stamps, fs`exempt, fs`view, fs`log, fs`freeClust, fs`fsiFlag, fs`lastClust
      modifies fs.win, fs.disk
      ensures fs.Valid()
      ensures res == FrOk ==> Steady()
      ensures WentOn(fs.geo, old(fs.Past()), fs.Past(), {})
      ensures sure ==> Valid()
      ensures sure && res == FrOk ==> index == Vacancy(old(Listed()), 0) < MAX_ENTRIES && At(index)
      ensures sure && res == FrOk && index == |old(Listed())| ==> Stretched(old(fs.view), old(chain))
      ensures sure && !(res == FrOk && index == |old(Listed())|) ==> fs.view == old(fs.view) && chain == old(chain)
      ensures sure ==> res == FrOk || res == FrNoFile || res == FrDenied || (res == FrIntErr && old(Listed()) == [])
      ensures sure && res == FrNoFile ==>
                || Vacancy(old(Listed()), 0) >= MAX_ENTRIES
                || (Vacancy(old(Listed()), 0) == |old(Listed())| && sclust == 0)
      ensures sure && res == FrDenied ==>
                sclust != 0 && Vacancy(old(Listed()), 0) == |old(Listed())| && C.NoFree(old(fs.Tab()))
      ensures sure && old(fs.CountOk()) ==> fs.CountOk()
    {
      hide Table, FatFs.Coherent, FatFs.Logged, FatFs.Current, Sectors, C.IsChain, C.FreeCount, TableItems;
      hide C.Clean, C.NoFree, Dir.Stretched, WentOn, FatFs.Valid, Dir.OnSector, Dir.InPlace, TableSectors;
      ghost var items, v0, s0 := Listed(), fs.view, chain;
      res := Seek(0);
      if res != FrOk {
        return;
      }
      AtInPlace(index);
      while true
        invariant res == FrOk && Steady()
        invariant sure ==> Valid() && At(index) && Upto(items, v0, s0)
        invariant sure && old(fs.CountOk()) ==> fs.CountOk()
        invariant WentOn(fs.geo, old(fs.Past()), fs.Past(), {})
        decreases MAX_ENTRIES - index
      {
        if sure && index == |items| {
          StretchedVacant(v0, s0);
        }
        var e;
        ghost var h := fs.Past();
        res, e := Load(sure);
        ghost var h1 := fs.Past();
        WentOnTrans(fs.geo, old(fs.Past()), h, h1, {}, {}, {});
        if res != FrOk || Vacant(e) {
          return;
        }
        res := Next(true, sure);
        WentOnTrans(fs.geo, old(fs.Past()), h1, fs.Past(), {}, {}, {});
        if res != FrOk {
          return;
        }
      }
    }

    /** The search for a vacant entry got here: nothing vacant so far, and the table as it was or stretched. */
    ghost predicate Upto(items: seq<Entry>, v0: View, s0: seq<nat>)
      requires TableOf(fs.geo, v0, sclust, s0) && TableOf(fs.geo, fs.view, sclust, chain)
      reads `index, `chain, fs`view
    {
      if index == |items| then
        Vacancy(items, 0) == |items| && Stretched(v0, s0)
      else
        && index < |items| && fs.view == v0 && chain == s0
        && Vacancy(items, 0) == Vacancy(items, index)
    }

    /** The entry after the old end of a stretched table is vacant. */
    lemma StretchedVacant(v0: View, s0: seq<nat>)
      requires TableOf(fs.geo, v0, sclust, s0) && TableOf(fs.geo, fs.view, sclust, chain)
      requires Stretched(v0, s0)
      ensures var n := |TableItems(fs.geo, v0, sclust, s0)|;
              n < |Listed()| && Vacant(Listed()[n])
    {
      hide Table, TableItems, Extends, C.Clean, C.NoFree, C.IsChain;
    }

    /** `dir_register`: fill the entry the object stands on. */
    method Put(fn: Name, ghost sure: bool) returns (res: Fresult)
      requires Steady()
      requires sure ==> Valid() && At(index)
      modifies fs`winsect, fs`wflag, fs`stamps, fs`exempt, fs`view, fs`log, fs.win, fs.disk
      ensures fs.Valid() && fs.Tab() == old(fs.Tab())
      ensures res == FrOk || res == FrDiskErr
      ensures fs.disk.reliable ==> res == FrOk
      ensures forall x :: 0 <= x < fs.geo.nsects && x != sect ==> fs.view[x] == old(fs.view)[x]
      ensures res == FrOk ==>
                && fs.winsect == sect < fs.geo.nsects && fs.wflag && ofs + ENTRY_SIZE <= SECTOR_SIZE
                && EntryAt(fs.view, sect, ofs) == NewEntry(fn)
      ensures WentOn(fs.geo, old(fs.Past()), fs.Past(), {})
      ensures sure ==> Valid() && index < |old(Listed())|
      ensures sure ==> Listed() == if res == FrOk then old(Listed())[index := NewEntry(fn)] else old(Listed())
    {
      hide Table, FatFs.Coherent, FatFs.Logged, FatFs.Current, Sectors, C.IsChain, Items, NewEntry, Patch;
      hide WentOn;
      if sure {
        TableInView(fs.geo, fs.view, sclust, chain);
      }
      InPlaceBounds(index);
      ghost var v := fs.view;
      res := fs.EditAt(sect, ofs, NewEntry(fn));
      if res == FrOk {
        TableKept(fs.geo, v, fs.view);
        EntryPatched(v[sect], ofs, NewEntry(fn), ofs);
        if sure {
          ItemsPatched(v, Spots(), index, NewEntry(fn));
        }
      }
    }

    /** The drive does not fail and the table of links holds no reserved entries. */
    ghost predicate Sound()
      requires fs.geo.WellFormed() && fs.geo.Fits(fs.view)
      reads fs`view, fs.disk
    {
      fs.disk.reliable && C.Clean(fs.Tab())
    }

    /**
     * `dir_register`. On a reliable drive with a clean table the name goes into the first vacant entry,
     * and nothing else in the table or in any other file changes. On any drive success means that the
     * window holds the new entry, and no link to a free cluster comes about on the way.
     */
    method Register(fn: Name) returns (res: Fresult)
      requires Valid()
      modifies `index, `clust, `sect, `ofs, `link, `chain
      modifies fs`winsect, fs`wflag, fs`stamps, fs`exempt, fs`view, fs`log, fs`freeClust, fs`fsiFlag, fs`lastClust
      modifies fs.win, fs.disk
      ensures fs.Valid()
      ensures res == FrOk ==>
                && fs.winsect == sect < fs.geo.nsects && fs.wflag && ofs + ENTRY_SIZE <= SECTOR_SIZE
                && EntryAt(fs.view, sect, ofs) == NewEntry(fn)
      ensures WentOn(fs.geo, old(fs.Past()), fs.Past(), {})
      ensures fs.geo.fsType != Fat12 && old(fs.Secure()) ==>
                fs.Secure() && ImagesSafe(fs.geo, fs.disk.images, |old(fs.disk.images)| - 1)
      ensures old(Sound()) ==> Valid() && Registered(fn, res, old(fs.view), old(chain))
      ensures old(Sound() && fs.CountOk()) ==> fs.CountOk()
    {
      hide FatFs.Coherent, FatFs.Logged, FatFs.Current, C.Clean, WentOn, SecurePast, ImagesSafe, Dir.Registered;
      hide TableOf;
      fs.LogEnds();
      ghost var h := fs.Past();
      res := Enter(fn, Sound());
      fs.StaysSecure(h, {});
    }

    /** `dir_register`: find a vacant entry and fill it. */
    method Enter(fn: Name, ghost sure: bool) returns (res: Fresult)
      requires Valid() && (sure ==> Sound())
      modifies `index, `clust, `sect, `ofs, `link, `chain
      modifies fs`winsect, fs`wflag, fs`stamps, fs`exempt, fs`view, fs`log, fs`freeClust, fs`fsiFlag, fs`lastClust
      modifies fs.win, fs.disk
      ensures fs.Valid()
      ensures res == FrOk ==>
                && fs.winsect == sect < fs.geo.nsects && fs.wflag && ofs + ENTRY_SIZE <= SECTOR_SIZE
                && EntryAt(fs.view, sect, ofs) == NewEntry(fn)
      ensures WentOn(fs.geo, old(fs.Past()), fs.Past(), {})
      ensures sure ==> Valid() && Registered(fn, res, old(fs.view), old(chain))
      ensures sure && old(fs.CountOk()) ==> fs.CountOk()
    {
      hide Table, FatFs.Valid, Sectors, C.IsChain, C.FreeCount, TableItems;
      hide C.Clean, C.NoFree, NewEntry, Extends, WentOn;
      ghost var h, v0, s0 := fs.Past(), fs.view, chain;
      ExtendsRefl(fs.geo, v0, s0);
      res := FindVacant(sure);
      if res == FrOk {
        ghost var v1 := fs.view;
        ghost var h1 := fs.Past();
        res := Put(fn, sure);
        WentOnTrans(fs.geo, h, h1, fs.Past(), {}, {}, {});
        if sure && sclust != 0 {
          PutExtends(fs.geo, v0, s0, v1, fs.view, chain, sect);
        }
      }
    }

    /** What registering a name makes of the table with chain `s0` in view `v0`. */
    ghost predicate Registered(fn: Name, res: Fresult, v0: View, s0: seq<nat>)
      requires TableOf(fs.geo, v0, sclust, s0) && TableOf(fs.geo, fs.view, sclust, chain)
      reads `index, `clust, `sect, `ofs, `link, `chain, fs`view
    {
      var items := TableItems(fs.geo, v0, sclust, s0);
      var at := Vacancy(items, 0);
      && (res == FrOk ==>
            && index == at < MAX_ENTRIES && At(index)
            && var room := WithRoom(items, index, ENTRIES_PER_SECTOR * fs.geo.csize);
               index < |room| && Listed() == room[index := NewEntry(fn)])
      && (res != FrOk ==> fs.view == v0 && chain == s0)
      && (res == FrOk || res == FrNoFile || res == FrDenied || (res == FrIntErr && items == []))
      && (res == FrNoFile ==> at >= MAX_ENTRIES || (at == |items| && sclust == 0))
      && (res == FrDenied ==> sclust != 0 && at == |items| && C.NoFree(Table(fs.geo, v0)))
      && (if sclust != 0 then Extends(fs.geo, v0, s0, fs.view, chain)
          else forall x :: 0 <= x < fs.geo.nsects && x != sect ==> fs.view[x] == v0[x])
    }

    /**
     * `f_open` with a create flag, up to the entry: find the name or register it. As a map from names
     * to entries the directory gains at most this name, and names stay unique.
     */
    method FindOrRegister(fn: Name) returns (res: Fresult)
      requires Valid()
      modifies `index, `clust, `sect, `ofs, `link, `chain
      modifies fs`winsect, fs`wflag, fs`stamps, fs`exempt, fs`view, fs`log, fs`freeClust, fs`fsiFlag, fs`lastClust
      modifies fs.win, fs.disk
      ensures fs.Valid()
      ensures WentOn(fs.geo, old(fs.Past()), fs.Past(), {})
      ensures fs.geo.fsType != Fat12 && old(fs.Secure()) ==>
                fs.Secure() && ImagesSafe(fs.geo, fs.disk.images, |old(fs.disk.images)| - 1)
      ensures old(Sound()) ==> Valid()
      ensures old(Sound()) && Usable(fn) && old(Tidy(Listed()) && Unique(Listed())) ==>
                && Tidy(Listed()) && Unique(Listed())
                && (res == FrOk ==> At(index) && Lookup(Listed(), fn, 0) == Some(index))
                && (res != FrOk ==> Listed() == old(Listed()) && Lookup(Listed(), fn, 0) == None)
                && forall other: Name :: other[..NAME_LEN] != fn[..NAME_LEN] ==>
                     Lookup(Listed(), other, 0) == old(Lookup(Listed(), other, 0))
      ensures old(Sound() && fs.CountOk()) ==> fs.CountOk()
    {
      hide Table, FatFs.Coherent, FatFs.Logged, FatFs.Current, Sectors, C.IsChain, C.FreeCount, TableItems, TableOf;
      hide C.Clean, C.NoFree, NewEntry, Extends, Lookup, Tidy, Unique, Vacancy, WithRoom, Dir.OnSector;
      hide WentOn, SecurePast, ImagesSafe;
      fs.LogEnds();
      ghost var items, h, sure := Listed(), fs.Past(), Sound();
      res := Find(fn);
      if res == FrNoFile {
        ghost var h1 := fs.Past();
        res := Register(fn);
        WentOnTrans(fs.geo, h, h1, fs.Past(), {}, {}, {});
        if sure && res == FrOk && Usable(fn) && Tidy(items) && Unique(items) {
          RegisterRefines(items, fn, ENTRIES_PER_SECTOR * fs.geo.csize);
        }
      } else if items == [] {
        LookupNothing(items, fn);
      }
      fs.StaysSecure(h, {});
    }
  }

  /** Where entry `i` of a table is does not depend on how it was reached. */
  lemma AtDetermines(a: Dir, b: Dir, i: nat)
    requires a.Valid() && b.Valid() && a.fs == b.fs && a.sclust == b.sclust && a.chain == b.chain
    requires a.At(i) && b.At(i)
    ensures a.sect == b.sect && a.ofs == b.ofs && a.index == b.index
    ensures a.sclust != 0 ==> a.clust == b.clust
  {
    hide Table, Sectors, C.IsChain, FatFs.Coherent, FatFs.Logged, FatFs.Current;
    if a.sclust != 0 {
      if a.link < b.link {
        MulMonotone(a.link, b.link, a.fs.geo.csize);
      } else if b.link < a.link {
        MulMonotone(b.link, a.link, a.fs.geo.csize);
      }
    }
  }

  /** A table is static (start 0), a chain, or nothing when the start cluster is out of range. */
  ghost predicate TableOf(g: Geometry, v: View, sclust: nat, s: seq<nat>) {
    && g.WellFormed() && g.Fits(v) && Clusters(g, s)
    && (!g.ValidCluster(sclust) ==> s == [])
    && (g.ValidCluster(sclust) ==> s != [] && s[0] == sclust && C.IsChain(Table(g, v), s))
  }

  ghost function TableSectors(g: Geometry, sclust: nat, s: seq<nat>): (r: seq<nat>)
    requires g.WellFormed() && Clusters(g, s)
  {
    if sclust == 0 then Consecutive(g.dirbase, g.nRootdir / ENTRIES_PER_SECTOR) else Sectors(g, s)
  }

  /** The entries of a table. */
  ghost function TableItems(g: Geometry, v: View, sclust: nat, s: seq<nat>): (r: seq<Entry>)
    requires TableOf(g, v, sclust, s)
    ensures |r| == ENTRIES_PER_SECTOR * |TableSectors(g, sclust, s)|
  {
    TableInView(g, v, sclust, s);
    Items(v, TableSectors(g, sclust, s))
  }

  lemma TableInView(g: Geometry, v: View, sclust: nat, s: seq<nat>)
    requires TableOf(g, v, sclust, s)
    ensures InView(v, TableSectors(g, sclust, s))
    ensures forall j :: 0 <= j < |TableSectors(g, sclust, s)| ==>
              g.Windowed(TableSectors(g, sclust, s)[j]) && !g.InFat(TableSectors(g, sclust, s)[j])
    ensures Injective(TableSectors(g, sclust, s))
  {
    hide Table, Sectors;
    SpotsInView(g, v, s);
    SpotsInjective(g, v, s);
    forall j | 0 <= j < |Sectors(g, s)|
      ensures g.Windowed(Sectors(g, s)[j]) && !g.InFat(Sectors(g, s)[j])
    {
      SectorInData(g, s, j);
    }
  }

  /** The sector and the offset of the entry that is `rest` entries into cluster `link`. */
  lemma Landing(g: Geometry, s: seq<nat>, idx: nat, link: nat, rest: nat)
    requires g.WellFormed() && Clusters(g, s) && link < |s| && rest < ENTRIES_PER_SECTOR * g.csize
    requires idx == ENTRIES_PER_SECTOR * Mul(link, g.csize) + rest
    ensures idx % ENTRIES_PER_SECTOR == rest % ENTRIES_PER_SECTOR
    ensures idx / ENTRIES_PER_SECTOR == Mul(link, g.csize) + rest / ENTRIES_PER_SECTOR < |Sectors(g, s)|
    ensures rest / ENTRIES_PER_SECTOR < g.csize && g.ValidCluster(s[link])
    ensures Sectors(g, s)[idx / ENTRIES_PER_SECTOR] == g.ClusterBase(s[link]) + rest / ENTRIES_PER_SECTOR
  {
    hide Sectors;
    SectorAt(g, s, link, rest / ENTRIES_PER_SECTOR);
  }

  /** The entries stored in the sectors `ss`. */
  ghost function Items(v: View, ss: seq<nat>): (r: seq<Entry>)
    requires InView(v, ss)
    ensures |r| == ENTRIES_PER_SECTOR * |ss|
  {
    seq(ENTRIES_PER_SECTOR * |ss|, i requires 0 <= i < ENTRIES_PER_SECTOR * |ss| =>
      EntryAt(v, ss[i / ENTRIES_PER_SECTOR], i % ENTRIES_PER_SECTOR * ENTRY_SIZE))
  }

  /** A table is a file of 32-byte records. */
  lemma ItemsInOrder(v: View, ss: seq<nat>, i: nat)
    requires InView(v, ss) && i < |Items(v, ss)|
    ensures 32 * (i + 1) <= SECTOR_SIZE * |ss|
    ensures Items(v, ss)[i] == Content(v, ss, SECTOR_SIZE * |ss|)[32 * i..32 * (i + 1)]
  {
    var k, r := i / ENTRIES_PER_SECTOR, i % ENTRIES_PER_SECTOR;
    var s := Content(v, ss, SECTOR_SIZE * |ss|)[32 * i..32 * (i + 1)];
    forall j | 0 <= j < 32 ensures s[j] == Items(v, ss)[i][j] {
      DivUnique(32 * i + j, k, 32 * r + j, SECTOR_SIZE);
    }
  }

  /** Sector `q` of a table, the one after a sector of cluster `link`: still there, or first of the next. */
  lemma TurnOfCluster(g: Geometry, q: nat, link: nat)
    requires g.WellFormed() && 0 < q && Mul(link, g.csize) <= q - 1 < Mul(link, g.csize) + g.csize
    ensures q % g.csize == 0 <==> q == Mul(link + 1, g.csize)
  {
    MulIsProduct(link, g.csize);
    MulIsProduct(link + 1, g.csize);
    if q == Mul(link + 1, g.csize) {
      DivUnique(q, link + 1, 0, g.csize);
    } else {
      DivUnique(q, link, q - Mul(link, g.csize), g.csize);
    }
  }

  lemma NextInTurn(q: nat, n: nat)
    requires 0 < q && 0 < n && q % n != 0
    ensures (q - 1) % n == q % n - 1
  {
    DivUnique(q - 1, q / n, q % n - 1, n);
  }

  /** The sector after sector `q - 1` of a chain, when that one lies in cluster `link`. */
  lemma SectorTurn(g: Geometry, s: seq<nat>, q: nat, link: nat)
    requires g.WellFormed() && Clusters(g, s) && link < |s|
    requires 0 < q && Mul(link, g.csize) <= q - 1 < Mul(link, g.csize) + g.csize
    ensures q - 1 < |Sectors(g, s)| && q <= |Sectors(g, s)|
    ensures q % g.csize != 0 ==>
              && q < |Sectors(g, s)| && Sectors(g, s)[q] == Sectors(g, s)[q - 1] + 1
              && Mul(link, g.csize) <= q < Mul(link, g.csize) + g.csize
    ensures q % g.csize == 0 ==> q == Mul(link + 1, g.csize) && (q == |Sectors(g, s)| <==> link + 1 == |s|)
  {
    hide Sectors;
    TurnOfCluster(g, q, link);
    SectorAt(g, s, link, q - 1 - Mul(link, g.csize));
    if q % g.csize != 0 {
      SectorAt(g, s, link, q - Mul(link, g.csize));
    }
    MulMonotone(link + 1, |s|, g.csize);
  }

  /** A new cluster hung behind the table and cleared: only that cluster and the table of links changed. */
  lemma StretchedTable(g: Geometry, v0: View, s0: seq<nat>, v1: View, c: nat)
    requires Extends(g, v0, s0, v1, s0 + [c]) && C.IsChain(Table(g, v1), s0 + [c])
    ensures g.ValidCluster(c) && g.ClusterBase(c) + g.csize <= g.nsects
    ensures var v2 := Overlay(v1, g.ClusterBase(c), Blanks(g.csize));
            && Table(g, v2) == Table(g, v1)
            && Extends(g, v0, s0, v2, s0 + [c])
  {
    hide Table, Sectors, Blanks;
    NewCluster(g, s0, c);
    var v2 := Overlay(v1, g.ClusterBase(c), Blanks(g.csize));
    TableKept(g, v1, v2);
    forall x | 0 <= x < g.nsects && !g.InFat(x) && v2[x] != v1[x] ensures x in Sectors(g, s0 + [c]) {
      SectorAt(g, s0 + [c], |s0|, x - g.ClusterBase(c));
    }
    ExtendsTrans(g, v0, s0, v1, s0 + [c], v2, s0 + [c]);
  }

  lemma NewCluster(g: Geometry, s0: seq<nat>, c: nat)
    requires g.WellFormed() && Clusters(g, s0 + [c])
    ensures g.ValidCluster(c) && g.ClusterBase(c) + g.csize <= g.nsects && Clusters(g, s0)
  {
    assert (s0 + [c])[|s0|] == c;
    assert forall i :: 0 <= i < |s0| ==> s0[i] == (s0 + [c])[i];
    ClusterInRange(g, c);
  }

  /** The entries of the stretched table are those of the old one and then cleared ones. */
  lemma StretchedItems(g: Geometry, v0: View, s0: seq<nat>, v1: View, c: nat)
    requires Extends(g, v0, s0, v1, s0 + [c]) && OnlyFat(g, v0, v1) && s0 != []
    requires C.IsChain(Table(g, v0), s0)
    ensures g.ValidCluster(c) && g.ClusterBase(c) + g.csize <= g.nsects && Clusters(g, s0)
    ensures var v2 := Overlay(v1, g.ClusterBase(c), Blanks(g.csize));
            && InView(v0, Sectors(g, s0)) && InView(v2, Sectors(g, s0 + [c]))
            && Items(v2, Sectors(g, s0 + [c])) ==
               Items(v0, Sectors(g, s0)) + ClearedMany(ENTRIES_PER_SECTOR * g.csize)
  {
    assert Clusters(g, s0 + [c]) && g.WellFormed() && g.Fits(v1) && g.Fits(v0);
    hide Table, Sectors, Blanks, Extends, Items;
    NewCluster(g, s0, c);
    var base := g.ClusterBase(c);
    var v2 := Overlay(v1, base, Blanks(g.csize));
    SpotsInView(g, v0, s0);
    SpotsInView(g, v2, s0 + [c]);
    SectorsAppend(g, s0, c);
    NewNotOld(g, v0, s0, v1, c);
    var before, added := Sectors(g, s0), ClusterSectors(g, c);
    forall j | 0 <= j < |before| ensures v2[before[j]] == v0[before[j]] {
      SectorInData(g, s0, j);
      if base <= before[j] < base + g.csize {
        var q, r := SectorOwner(g, s0, j);
        ClustersDisjoint(g, s0[q], r, c, before[j] - base);
      }
    }
    ItemsAppend(v0, v2, before, added);
  }

  lemma NewNotOld(g: Geometry, v0: View, s0: seq<nat>, v1: View, c: nat)
    requires Extends(g, v0, s0, v1, s0 + [c]) && C.IsChain(Table(g, v0), s0)
    ensures c !in s0
  {
    hide Table, Sectors;
    assert (s0 + [c])[|s0|] == c;
    NotOnChain(g, v0, s0, c);
  }

  lemma ItemsAppend(v0: View, v2: View, before: seq<nat>, added: seq<nat>)
    requires InView(v0, before) && InView(v2, before + added)
    requires forall j :: 0 <= j < |before| ==> before[j] < |v2| && v2[before[j]] == v0[before[j]]
    requires forall j :: 0 <= j < |added| ==> added[j] < |v2| && v2[added[j]] == Blank()
    ensures Items(v2, before + added) == Items(v0, before) + ClearedMany(ENTRIES_PER_SECTOR * |added|)
  {
    hide ClearedMany, Blank, Items, Cleared;
    var all := Items(v0, before) + ClearedMany(ENTRIES_PER_SECTOR * |added|);
    var now := Items(v2, before + added);
    assert |now| == |all|;
    forall i | 0 <= i < |now| ensures now[i] == all[i] {
      ItemAppended(v0, v2, before, added, i);
    }
  }

  lemma ItemAppended(v0: View, v2: View, before: seq<nat>, added: seq<nat>, i: nat)
    requires InView(v0, before) && InView(v2, before + added) && i < ENTRIES_PER_SECTOR * |before + added|
    requires forall j :: 0 <= j < |before| ==> before[j] < |v2| && v2[before[j]] == v0[before[j]]
    requires forall j :: 0 <= j < |added| ==> added[j] < |v2| && v2[added[j]] == Blank()
    ensures Items(v2, before + added)[i] == (Items(v0, before) + ClearedMany(ENTRIES_PER_SECTOR * |added|))[i]
  {
    hide Blank, Cleared;
    var j := i / ENTRIES_PER_SECTOR;
    if j >= |before| {
      assert (before + added)[j] == added[j - |before|];
      BlankEntry(i % ENTRIES_PER_SECTOR * ENTRY_SIZE);
    } else {
      assert (before + added)[j] == before[j];
    }
  }

  lemma BlankEntry(o: nat)
    requires o + ENTRY_SIZE <= SECTOR_SIZE
    ensures Blank()[o..o + ENTRY_SIZE] == Cleared()
  {
  }

  /** Storing an entry replaces that entry of the table. */
  lemma ItemsPatched(v: View, ss: seq<nat>, i: nat, e: Entry)
    requires InView(v, ss) && Injective(ss) && i < ENTRIES_PER_SECTOR * |ss|
    ensures var s := ss[i / ENTRIES_PER_SECTOR];
            var o := i % ENTRIES_PER_SECTOR * ENTRY_SIZE;
            var v' := v[s := Patch(v[s], o, e)];
            InView(v', ss) && Items(v', ss) == Items(v, ss)[i := e]
  {
    hide Patch;
    var s, o := ss[i / ENTRIES_PER_SECTOR], i % ENTRIES_PER_SECTOR * ENTRY_SIZE;
    var v' := v[s := Patch(v[s], o, e)];
    forall k | 0 <= k < ENTRIES_PER_SECTOR * |ss| ensures Items(v', ss)[k] == if k == i then e else Items(v, ss)[k] {
      EntryPatched(v[s], o, e, k % ENTRIES_PER_SECTOR * ENTRY_SIZE);
    }
  }

  lemma EntryPatched(s: Sector, o: nat, e: Entry, p: nat)
    requires o + ENTRY_SIZE <= SECTOR_SIZE && p + ENTRY_SIZE <= SECTOR_SIZE
    requires o % ENTRY_SIZE == 0 && p % ENTRY_SIZE == 0
    ensures Patch(s, o, e)[p..p + ENTRY_SIZE] == if p == o then e else s[p..p + ENTRY_SIZE]
  {
    hide Patch;
  }

  /** Storing in a sector of the table is part of extending its chain. */
  lemma PutExtends(g: Geometry, v0: View, s0: seq<nat>, v1: View, v2: View, s: seq<nat>, x: nat)
    requires Extends(g, v0, s0, v1, s) && g.Fits(v2) && Table(g, v2) == Table(g, v1)
    requires s != [] && C.IsChain(Table(g, v1), s) && x in Sectors(g, s)
    requires forall y :: 0 <= y < g.nsects && y != x ==> v2[y] == v1[y]
    ensures Extends(g, v0, s0, v2, s)
  {
    hide Table, Sectors;
    ExtendsTrans(g, v0, s0, v1, s, v2, s);
  }
}
