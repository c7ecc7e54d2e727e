/** The volume as a collection of byte sequences, and what callers of the file layer can rely on. */
module FileSystem {
  import opened Bytes
  import opened DirEntry
  import opened Layout
  import opened FileData
  import opened Volume
  import opened FileIo
  import C = Chains

  /** A file of the volume: its chain and its size. */
  datatype FileRec = FileRec(chain: seq<nat>, size: nat)

  ghost predicate Intact(g: Geometry, v: View, f: FileRec) {
    Placed(g, v, if f.chain == [] then 0 else f.chain[0], f.chain, f.size)
  }

  /** All files are in place and no cluster belongs to two of them. */
  ghost predicate Files(g: Geometry, v: View, fs: seq<FileRec>) {
    && (forall i :: 0 <= i < |fs| ==> Intact(g, v, fs[i]))
    && (forall i, j :: 0 <= i < |fs| && 0 <= j < |fs| && i != j ==> C.Apart(fs[i].chain, fs[j].chain))
  }

  ghost function BytesOf(g: Geometry, v: View, f: FileRec): (b: seq<byte>)
    requires Intact(g, v, f)
    ensures |b| == f.size
  {
    SpotsInView(g, v, f.chain);
    Content(v, Sectors(g, f.chain), f.size)
  }

  /** File `f` is in place in both views and holds the same bytes. */
  ghost predicate Untouched(g: Geometry, v0: View, v: View, f: FileRec) {
    Intact(g, v0, f) && Intact(g, v, f) && BytesOf(g, v, f) == BytesOf(g, v0, f)
  }

  /**
   * Refinement of a map: when file `k` grows from its chain to `s` and nothing else is touched, every
   * other file keeps its chain and its bytes, and the files stay apart.
   */
  lemma OnlyOneFileChanges(g: Geometry, v0: View, fs: seq<FileRec>, k: nat, v: View, f: FileRec)
    requires Files(g, v0, fs) && k < |fs|
    requires Extends(g, v0, fs[k].chain, v, f.chain) && Intact(g, v, f)
    ensures Files(g, v, fs[k := f])
    ensures forall i :: 0 <= i < |fs| && i != k ==> Untouched(g, v0, v, fs[i])
  {
    hide Extends, Table, Sectors, Content;
    forall i | 0 <= i < |fs| && i != k
      ensures Untouched(g, v0, v, fs[i])
      ensures C.Apart(f.chain, fs[i].chain) && C.Apart(fs[i].chain, f.chain)
    {
      OtherFile(g, v0, fs[k].chain, v, f.chain, fs[i]);
    }
  }

  lemma OtherFile(g: Geometry, v0: View, s0: seq<nat>, v: View, s: seq<nat>, o: FileRec)
    requires Extends(g, v0, s0, v, s) && Intact(g, v0, o) && C.Apart(s0, o.chain)
    ensures Intact(g, v, o) && C.Apart(s, o.chain) && BytesOf(g, v, o) == BytesOf(g, v0, o)
  {
    hide Table, Sectors, Content;
    if o.chain != [] {
      OthersKept(g, v0, s0, v, s, o.chain, o.size);
    }
  }

  /** What is written, synced and sought back to is what is read. */
  method WriteThenReadBack(f: File, buff: seq<byte>) returns (bw: nat, data: seq<byte>)
    requires f.Valid() && f.EntryPlaced() && f.fs.disk.reliable && C.Clean(f.fs.Tab())
    requires f.canRead && f.canWrite && !f.aborted && |buff| < TWO32
    modifies f, f.fs, f.fs.win, f.fs.disk
    ensures f.Valid() && bw <= |buff| && data == buff[..bw]
    ensures f.Data() == Overwrite(old(f.Data()), old(f.fptr), data)
    ensures bw <= old(f.Asked(|buff|)) && (bw < old(f.Asked(|buff|)) ==> C.NoFree(f.fs.Tab()))
  {
    hide Table, Content, Sectors, Extends, C.Clean, C.NoFree, C.Grow, FatFs.Logged, FatFs.Coherent, FatFs.Current;
    hide C.IsChain, File.Cursor, File.OnMedium, Placed;
    var p := f.fptr;
    bw := WriteAndSync(f, buff);
    SeekBack(f, p);
    var res;
    res, data := f.Read(FrOk, bw);
  }

  /**
   * What happens without the sync: a byte is written at the start of a file that fills a sector, the
   * cursor goes back, and a read of the whole sector returns what the medium held before.
   */
  method ReadsStale(f: File, x: byte) returns (data: seq<byte>)
    requires f.Valid() && f.fs.disk.reliable && C.Clean(f.fs.Tab()) && !f.fs.wflag
    requires f.canRead && f.canWrite && !f.aborted && f.fptr == 0
    requires SECTOR_SIZE <= f.fsize < TWO32 - 1 && x != f.Data()[0]
    modifies f, f.fs, f.fs.win, f.fs.disk
    ensures f.Valid() && f.Data() == old(f.Data())[0 := x]
    ensures |data| == SECTOR_SIZE <= f.fsize && data != f.Data()[..SECTOR_SIZE]
  {
    hide Table, Content, Sectors, C.Clean, FatFs.Logged, FatFs.Current, FatFs.Coherent;
    hide C.IsChain, File.Cursor, Placed, File.Stale;
    WriteFirst(f, x);
    var res;
    res, data := f.Read(FrOk, SECTOR_SIZE);
  }

  /** The write and the way back: the new byte is in the window only. */
  method WriteFirst(f: File, x: byte)
    requires f.Valid() && f.fs.disk.reliable && C.Clean(f.fs.Tab()) && !f.fs.wflag
    requires f.canWrite && !f.aborted && f.fptr == 0
    requires SECTOR_SIZE <= f.fsize < TWO32 - 1 && x != f.Data()[0]
    modifies f, f.fs, f.fs.win, f.fs.disk
    ensures f.Valid() && f.fptr == 0 && f.fsize == old(f.fsize) && f.Data() == old(f.Data())[0 := x]
    ensures f.aborted == old(f.aborted) && f.canRead == old(f.canRead)
    ensures f.Stale(SECTOR_SIZE) && f.fs.disk.sectors[f.fs.winsect] != f.fs.view[f.fs.winsect]
  {
    hide Table, Content, Sectors, Extends, C.Clean, C.NoFree, FatFs.Valid, WentOn, SecurePast, ImagesSafe;
    hide C.IsChain, File.Cursor, Placed, File.Stale, Clusters, File.Steady, C.Grow;
    FirstByte(f);
    OverwriteFirst(f, x);
    f.Fit();
    SeekBackStays(f, 0);
    var res := f.Seek(FrOk, 0);
    assert f.Data()[..f.fsize] == f.Data();
    FirstByte(f);
  }

  method OverwriteFirst(f: File, x: byte)
    requires f.Valid() && f.fs.disk.reliable && C.Clean(f.fs.Tab()) && !f.fs.wflag
    requires f.canWrite && !f.aborted && f.fptr == 0 && SECTOR_SIZE <= f.fsize < TWO32 - 1
    modifies f, f.fs, f.fs.win, f.fs.disk
    ensures f.Valid() && f.fs.disk.reliable && C.Clean(f.fs.Tab())
    ensures f.fsize == old(f.fsize) && f.Data() == old(f.Data())[0 := x] && f.chain == old(f.chain)
    ensures f.aborted == old(f.aborted) && f.canRead == old(f.canRead) && f.canWrite == old(f.canWrite)
    ensures f.Parked(0) && f.fs.disk.sectors == old(f.fs.disk.sectors)
  {
    hide Table, Content, Sectors, C.Clean, C.NoFree, FatFs.Valid, WentOn, SecurePast, ImagesSafe;
    hide C.IsChain, File.Cursor, Placed, Clusters, File.Steady, Extends, C.Grow;
    ghost var c := f.Data();
    FirstByte(f);
    SeekBackStays(f, 1);
    f.Fit();
    var res, bw := f.Write(FrOk, [x]);
    RoomLeft(f);
    OneByte(c, x, bw);
  }

  /** The first byte of a file; with its first sector in a dirty window a read of it would be stale. */
  lemma FirstByte(f: File)
    requires f.Valid() && SECTOR_SIZE <= f.fsize
    ensures 0 < |f.chain| && 0 < |f.Spots()| && f.Spots()[0] < |f.fs.view|
    ensures f.Data()[0] == f.fs.view[f.Spots()[0]][0]
    ensures f.fptr == 0 && f.Parked(0) ==> f.Stale(SECTOR_SIZE)
    ensures !f.fs.wflag ==> f.fs.disk.sectors[f.Spots()[0]] == f.fs.view[f.Spots()[0]]
  {
    hide Table, Sectors;
    SpotsInView(f.fs.geo, f.fs.view, f.chain);
    SectorInData(f.fs.geo, f.chain, 0);
  }

  /** A file with bytes in it has room for the first. */
  lemma RoomLeft(f: File)
    requires f.Valid() && 0 < f.fsize
    ensures 0 < SECTOR_SIZE * Mul(|f.chain|, f.fs.geo.csize)
  {
    hide Table, Sectors;
  }

  lemma OneByte(c: seq<byte>, x: byte, n: nat)
    requires 0 < |c| && n <= 1
    ensures n == 1 ==> Overwrite(c, 0, [x][..n]) == c[0 := x]
  {
  }

  method WriteAndSync(f: File, buff: seq<byte>) returns (bw: nat)
    requires f.Valid() && f.EntryPlaced() && f.fs.disk.reliable && C.Clean(f.fs.Tab())
    requires f.canWrite && !f.aborted && |buff| < TWO32
    modifies f, f.fs, f.fs.win, f.fs.disk
    ensures f.Valid() && C.Clean(f.fs.Tab()) && !f.fs.wflag && f.OnMedium()
    ensures bw <= |buff| && f.fptr == old(f.fptr) + bw
    ensures f.Data() == Overwrite(old(f.Data()), old(f.fptr), buff[..bw])
    ensures bw <= old(f.Asked(|buff|)) && (bw < old(f.Asked(|buff|)) ==> C.NoFree(f.fs.Tab()))
    ensures f.aborted == old(f.aborted) && f.canRead == old(f.canRead) && f.canWrite == old(f.canWrite)
  {
    hide Table, Content, Sectors, Extends, C.Clean, C.NoFree, C.Grow, FatFs.Valid, WentOn, SecurePast, ImagesSafe;
    hide C.IsChain, File.Cursor, File.OnMedium, Clusters, Elsewhere, File.Steady, File.Allocated, File.ShortDone;
    var res;
    f.Fit();
    res, bw := f.Write(FrOk, buff);
    ElsewhereStays(f.fs.geo, old(f.fs.view), old(f.chain), f.fs.view, f.chain, f.dirSect);
    res := f.Sync(FrOk);
  }

  method SeekBack(f: File, p: nat)
    requires f.Valid() && f.fs.disk.reliable && C.Clean(f.fs.Tab()) && p <= f.fsize
    requires f.canWrite && !f.aborted && !f.fs.wflag
    modifies f, f.fs, f.fs.win, f.fs.disk
    ensures f.Valid() && f.fptr == p && f.Data() == old(f.Data()) && !f.fs.wflag
    ensures f.aborted == old(f.aborted) && f.canRead == old(f.canRead)
    ensures f.fs.Tab() == old(f.fs.Tab())
  {
    hide Table, Content, Sectors, Extends, C.Clean, C.NoFree, FatFs.Logged, FatFs.Coherent, FatFs.Current;
    hide C.IsChain, File.Cursor;
    SeekBackStays(f, p);
    f.Fit();
    var res := f.Seek(FrOk, p);
  }

  /** Seeking to a place inside the file needs no new cluster. */
  lemma SeekBackStays(f: File, p: nat)
    requires f.Valid() && p <= f.fsize
    ensures 0 < f.fs.geo.Bcs() && ClustersFor(p, f.fs.geo.Bcs()) <= |f.chain|
    ensures p <= SECTOR_SIZE * Mul(|f.chain|, f.fs.geo.csize)
  {
    hide Table, Sectors;
    MulScale(|f.chain|, f.fs.geo.csize, SECTOR_SIZE);
    NeedAtMost(p, f.fs.geo.Bcs(), |f.chain|);
  }

  /** `f_write` as an update of one file of the volume: the others do not notice. */
  method UpdateFile(f: File, ghost files: seq<FileRec>, ghost k: nat, buff: seq<byte>) returns (bw: nat)
    requires f.Valid() && f.fs.disk.reliable && C.Clean(f.fs.Tab())
    requires f.canWrite && !f.aborted && |buff| < TWO32
    requires Files(f.fs.geo, f.fs.view, files) && k < |files| && files[k] == FileRec(f.chain, f.fsize)
    modifies f, f.fs, f.fs.win, f.fs.disk
    ensures f.Valid() && bw <= |buff|
    ensures var now := files[k := FileRec(f.chain, f.fsize)];
            && Files(f.fs.geo, f.fs.view, now)
            && old(f.fptr) <= files[k].size
            && BytesOf(f.fs.geo, f.fs.view, now[k]) ==
               Overwrite(old(BytesOf(f.fs.geo, f.fs.view, files[k])), old(f.fptr), buff[..bw])
            && forall i :: 0 <= i < |files| && i != k ==> Untouched(f.fs.geo, old(f.fs.view), f.fs.view, files[i])
    ensures f.fs.geo.fsType != Fat12 && old(f.fs.Secure()) ==>
              f.fs.Secure() && ImagesSafe(f.fs.geo, f.fs.disk.images, |old(f.fs.disk.images)| - 1)
    ensures bw <= old(f.Asked(|buff|)) && (bw < old(f.Asked(|buff|)) ==> C.NoFree(f.fs.Tab()) && f.Stuck())
  {
    hide Table, Content, Sectors, Extends, C.Clean, C.NoFree, FatFs.Logged, FatFs.Coherent, FatFs.Current;
    hide C.IsChain, File.Cursor, Clusters, C.Apart;
    ghost var v := f.fs.view;
    var res;
    f.Fit();
    res, bw := f.Write(FrOk, buff);
    OnlyOneFileChanges(f.fs.geo, v, files, k, f.fs.view, FileRec(f.chain, f.fsize));
  }

  // ----- truncation on open -----

  /** The entry leads nowhere. */
  ghost predicate Emptied(v: View, s: nat, o: nat)
    requires o + ENTRY_SIZE <= SECTOR_SIZE
  {
    s < |v| && StartCluster(EntryAt(v, s, o)) == 0 && FileSize(EntryAt(v, s, o)) == 0
  }

  /** Since index `from` of the log the entry leads nowhere. */
  ghost predicate EmptiedSince(log: seq<View>, from: nat, s: nat, o: nat)
    requires o + ENTRY_SIZE <= SECTOR_SIZE
  {
    forall i :: from <= i < |log| ==> Emptied(log[i], s, o)
  }

  /** Cluster `c` has been in use ever since the moment the medium shows. */
  ghost predicate InUse(g: Geometry, h: History, c: nat)
    requires g.WellFormed() && g.ValidCluster(c)
  {
    0 < |h.stamps| &&
    forall i :: h.stamps[|h.stamps| - 1] <= i < |h.log| ==> g.Fits(h.log[i]) && Table(g, h.log[i])[c] != 0
  }

  /** No content of the medium from `j` on has freed a cluster and not emptied the entry. */
  ghost predicate EntryFirst(g: Geometry, h: History, images: seq<View>, j: nat, s: nat, o: nat)
    requires g.WellFormed() && o + ENTRY_SIZE <= SECTOR_SIZE
  {
    forall k, c :: j <= k < |images| && g.ValidCluster(c) && InUse(g, h, c) ==>
      g.Fits(images[k]) && (Table(g, images[k])[c] == 0 ==> Emptied(images[k], s, o))
  }

  /**
   * `f_open` with FA_CREATE_ALWAYS on an existing file, whose entry the window shows: empty the
   * entry, free the chain, then come back to the entry and reset it. Wherever power is lost, no
   * cluster of the file is free on the medium and still reached through the entry.
   */
  method OpenTruncate(fs: FatFs, o: nat) returns (res: Fresult)
    requires fs.Valid() && fs.winsect != 0 && !fs.geo.InFat(fs.winsect) && o + ENTRY_SIZE <= SECTOR_SIZE
    modifies fs`winsect, fs`wflag, fs`stamps, fs`exempt, fs`view, fs`log, fs`freeClust, fs`fsiFlag, fs`lastClust
    modifies fs.win, fs.disk
    ensures fs.Valid()
    ensures |old(fs.log)| < |fs.log| && EmptiedSince(fs.log, |old(fs.log)|, old(fs.winsect), o)
    ensures forall x :: 0 <= x < fs.geo.nsects && !fs.geo.InFat(x) && x != old(fs.winsect) ==>
              fs.view[x] == old(fs.view)[x]
    ensures var ps := old(fs.winsect);
            var e := PointAt(old(EntryAt(fs.view, ps, o)), 0, 0);
            && fs.view[ps] == Patch(old(fs.view)[ps], o, if res == FrOk then Reset(e) else e)
            && (res == FrOk ==> fs.winsect == ps && fs.wflag)
    ensures fs.disk.reliable && old(fs.CountOk()) ==> fs.CountOk()
    ensures var cl := old(StartCluster(EntryAt(fs.view, fs.winsect, o)));
            && (cl == 0 ==> fs.Tab() == old(fs.Tab()) && fs.lastClust == old(fs.lastClust))
            && (fs.disk.reliable && fs.geo.ValidCluster(cl) ==>
                  && fs.Tab() == C.Freed(old(fs.Tab()), cl).0
                  && (res == FrOk <==> C.Freed(old(fs.Tab()), cl).1)
                  && (res == FrOk ==> fs.lastClust == cl - 1))
            && (cl == 0 || SafeToFree(old(fs.Tab()), cl) ==>
                  && WentOn(fs.geo, old(fs.Past()), fs.Past(), {})
                  && (fs.geo.fsType != Fat12 && old(fs.Secure()) ==>
                        fs.Secure() && ImagesSafe(fs.geo, fs.disk.images, |old(fs.disk.images)| - 1)))
    ensures Later(old(fs.Past()), fs.Past(), {})
    ensures EntryFirst(fs.geo, old(fs.Past()), fs.disk.images, |old(fs.disk.images)|, old(fs.winsect), o)
  {
    hide Table, FatFs.Logged, FatFs.Coherent, FatFs.Current, PointAt, Reset, C.Freed, C.FreeCount, EmptiedSince;
    hide OnlyFat, OnlyFatSince, Patch, WentOn, Later, EntryFirst, SecurePast, ImagesSafe, SafeToFree;
    ghost var v0, h0, ps0 := fs.view, fs.Past(), fs.winsect;
    fs.NothingYet();
    NotAhead(fs);
    var e: Entry := fs.win[o..o + ENTRY_SIZE];
    var cl := StartCluster(e);
    EmptyEntry(fs, o);
    var ps := fs.winsect;
    ghost var h1, v1 := fs.Past(), fs.view;
    res := FreeContents(fs, cl, |h0.log|, ps, o);
    ghost var h2 := fs.Past();
    LaterTrans(h0, h1, h2, {}, {}, {});
    ghost var safe := cl == 0 || SafeToFree(Table(fs.geo, v0), cl);
    if safe {
      WentOnTrans(fs.geo, h0, h1, h2, {}, {}, {});
    }
    if res == FrOk {
      res := ComeBack(fs, ps, o, |h0.log|);
      LaterTrans(h0, h2, fs.Past(), {}, {}, {});
      if safe {
        WentOnTrans(fs.geo, h0, h2, fs.Past(), {}, {}, {});
      }
      PatchTwice(v0[ps], o, PointAt(e, 0, 0), Reset(PointAt(e, 0, 0)));
    }
    fs.LogEnds();
    PowerLossAfterTruncate(fs.geo, h0, fs.Past(), ps, o);
    if safe {
      fs.StaysSecure(h0, {});
    }
  }

  /** No file write has overtaken the sector the window shows. */
  lemma NotAhead(fs: FatFs)
    requires fs.Valid()
    ensures 0 < |fs.exempt| && fs.winsect !in fs.exempt[|fs.exempt| - 1]
  {
    hide FatFs.Coherent, FatFs.Logged;
  }

  /** `f_open`: the first store, which empties the entry. */
  method EmptyEntry(fs: FatFs, o: nat)
    requires fs.Valid() && fs.winsect != 0 && !fs.geo.InFat(fs.winsect) && o + ENTRY_SIZE <= SECTOR_SIZE
    modifies fs`wflag, fs`view, fs`log, fs.win
    ensures fs.Valid() && fs.Tab() == old(fs.Tab())
    ensures var ps := fs.winsect;
            fs.view == old(fs.view)[ps := Patch(old(fs.view)[ps], o, PointAt(EntryAt(old(fs.view), ps, o), 0, 0))]
    ensures |fs.log| == |old(fs.log)| + 1 && EmptiedSince(fs.log, |old(fs.log)|, fs.winsect, o)
    ensures fs.log[|fs.log| - 1] == fs.view
    ensures WentOn(fs.geo, old(fs.Past()), fs.Past(), {}) && Later(old(fs.Past()), fs.Past(), {})
  {
    hide Table, FatFs.Coherent, FatFs.Current, FatFs.Logged, PointAt, Patch, EmptiedSince, SafeRun, AheadIn;
    ghost var v, h := fs.view, fs.Past();
    fs.NothingYet();
    var e: Entry := fs.win[o..o + ENTRY_SIZE];
    PointAtFields(e, 0, 0);
    EmptiedNone(fs.log, fs.winsect, o);
    EmptiedPatch(fs.log, |fs.log|, v, fs.winsect, o, PointAt(e, 0, 0));
    fs.Poke(o, PointAt(e, 0, 0));
    fs.OneStore(h, h);
    TableKept(fs.geo, v, fs.view);
  }

  /** `f_open`: free the old chain, if there is one. */
  method FreeContents(fs: FatFs, cl: nat, ghost from: nat, ghost s: nat, ghost o: nat) returns (res: Fresult)
    requires fs.Valid() && !fs.geo.InFat(s) && o + ENTRY_SIZE <= SECTOR_SIZE
    requires from < |fs.log| && fs.log[|fs.log| - 1] == fs.view && EmptiedSince(fs.log, from, s, o)
    modifies fs`winsect, fs`wflag, fs`stamps, fs`exempt, fs`view, fs`log, fs`freeClust, fs`fsiFlag, fs`lastClust
    modifies fs.win, fs.disk
    ensures fs.Valid() && from < |fs.log| && EmptiedSince(fs.log, from, s, o)
    ensures forall x :: 0 <= x < fs.geo.nsects && !fs.geo.InFat(x) ==> fs.view[x] == old(fs.view)[x]
    ensures fs.disk.reliable && old(fs.CountOk()) ==> fs.CountOk()
    ensures cl == 0 ==> res == FrOk && fs.Tab() == old(fs.Tab()) && fs.lastClust == old(fs.lastClust)
    ensures fs.disk.reliable && fs.geo.ValidCluster(cl) ==>
              && fs.Tab() == C.Freed(old(fs.Tab()), cl).0
              && res == if C.Freed(old(fs.Tab()), cl).1 then FrOk else FrIntErr
    ensures res == FrOk && cl != 0 ==> fs.lastClust == cl - 1
    ensures Later(old(fs.Past()), fs.Past(), {})
    ensures cl == 0 || SafeToFree(old(fs.Tab()), cl) ==>
              WentOn(fs.geo, old(fs.Past()), fs.Past(), {})
  {
    hide Table, FatFs.Logged, FatFs.Coherent, FatFs.Current, C.Freed, C.FreeCount, EmptiedSince;
    hide OnlyFat, OnlyFatSince, AheadIn, SafeRun, SafeToFree, Emptied;
    res := FrOk;
    fs.NothingYet();
    if cl != 0 {
      ghost var v1, l1 := fs.view, fs.log;
      res := fs.RemoveChain(cl);
      EmptiedFat(fs.geo, v1, l1, fs.log, from, s, o);
      OnlyFatElsewhere(fs.geo, v1, fs.view);
      if res == FrOk {
        fs.lastClust := cl - 1;
      }
    }
  }

  /** `f_open`: back to the entry, which loses its attributes and its creation date. */
  method ComeBack(fs: FatFs, ps: nat, o: nat, ghost from: nat) returns (res: Fresult)
    requires fs.Valid() && ps != 0 && fs.geo.Windowed(ps) && !fs.geo.InFat(ps) && o + ENTRY_SIZE <= SECTOR_SIZE
    requires from < |fs.log| && EmptiedSince(fs.log, from, ps, o)
    modifies fs`winsect, fs`wflag, fs`stamps, fs`exempt, fs`view, fs`log, fs.win, fs.disk
    ensures fs.Valid() && fs.Tab() == old(fs.Tab())
    ensures fs.disk.reliable ==> res == FrOk
    ensures res == FrOk ==> fs.winsect == ps && fs.wflag
    ensures fs.view == if res == FrOk then
                         old(fs.view)[ps := Patch(old(fs.view)[ps], o, Reset(EntryAt(old(fs.view), ps, o)))]
                       else old(fs.view)
    ensures from < |fs.log| && EmptiedSince(fs.log, from, ps, o)
    ensures WentOn(fs.geo, old(fs.Past()), fs.Past(), {}) && Later(old(fs.Past()), fs.Past(), {})
  {
    hide Table, FatFs.Coherent, FatFs.Current, FatFs.Logged, Reset, Patch, AheadIn, SafeRun, EmptiedSince;
    ghost var v, h := fs.view, fs.Past();
    fs.NothingYet();
    res := fs.MoveWindow(ps);
    ghost var h1 := fs.Past();
    WentOnQuietly(fs.geo, h, h1, {});
    if res == FrOk {
      var e: Entry := fs.win[o..o + ENTRY_SIZE];
      ResetFields(e);
      LastEmptied(fs.log, from, ps, o);
      EmptiedPatch(fs.log, from, v, ps, o, Reset(e));
      fs.Poke(o, Reset(e));
      fs.OneStore(h, h1);
      TableKept(fs.geo, v, fs.view);
    }
  }

  lemma LastEmptied(log: seq<View>, from: nat, s: nat, o: nat)
    requires o + ENTRY_SIZE <= SECTOR_SIZE && from < |log| && EmptiedSince(log, from, s, o)
    ensures Emptied(log[|log| - 1], s, o)
  {
  }

  /** A second store to the same place replaces the first. */
  lemma PatchTwice(s: seq<byte>, o: nat, a: seq<byte>, b: seq<byte>)
    requires o + |a| <= |s| && |b| == |a|
    ensures Patch(s, o, a)[o..o + |a|] == a && Patch(Patch(s, o, a), o, b) == Patch(s, o, b)
  {
    hide Patch;
  }

  lemma EmptiedNone(log: seq<View>, s: nat, o: nat)
    requires o + ENTRY_SIZE <= SECTOR_SIZE
    ensures EmptiedSince(log, |log|, s, o)
  {
  }

  lemma EmptiedPatch(log: seq<View>, from: nat, v: View, s: nat, o: nat, e: Entry)
    requires s < |v| && o + ENTRY_SIZE <= SECTOR_SIZE && EmptiedSince(log, from, s, o)
    requires StartCluster(e) == 0 && FileSize(e) == 0
    ensures EmptiedSince(log + [v[s := Patch(v[s], o, e)]], from, s, o)
  {
    hide Patch, StartCluster, FileSize;
    assert Patch(v[s], o, e)[o..o + ENTRY_SIZE] == e;
  }

  /** Stores to the cluster table do not bring the entry back. */
  lemma EmptiedFat(g: Geometry, v: View, l1: seq<View>, l2: seq<View>, from: nat, s: nat, o: nat)
    requires o + ENTRY_SIZE <= SECTOR_SIZE && from < |l1| && l1[|l1| - 1] == v
    requires EmptiedSince(l1, from, s, o) && l1 <= l2 && OnlyFatSince(g, v, l2, |l1|) && !g.InFat(s)
    ensures EmptiedSince(l2, from, s, o)
  {
    hide StartCluster, FileSize;
    assert Emptied(v, s, o);
    forall i | from <= i < |l2| ensures Emptied(l2[i], s, o) {
      if i < |l1| {
        assert l2[i] == l1[i];
      } else {
        assert OnlyFat(g, v, l2[i]);
      }
    }
  }

  lemma OnlyFatElsewhere(g: Geometry, v: View, v': View)
    requires OnlyFat(g, v, v')
    ensures g.Fits(v) && g.Fits(v')
    ensures forall x :: 0 <= x < g.nsects && !g.InFat(x) ==> v'[x] == v[x]
  {
  }

  /**
   * Truncation as an update of one file: when its chain has been freed and otherwise only sector `x`,
   * which no other file uses, has changed, every other file keeps its chain and its bytes.
   */
  lemma TruncateKeepsOthers(g: Geometry, v0: View, files: seq<FileRec>, k: nat, v: View, x: nat)
    requires Files(g, v0, files) && k < |files| && files[k].chain != [] && g.WellFormed() && g.Fits(v)
    requires Table(g, v) == C.Freed(Table(g, v0), files[k].chain[0]).0
    requires forall s :: 0 <= s < g.nsects && !g.InFat(s) && s != x ==> v[s] == v0[s]
    requires forall i :: 0 <= i < |files| && i != k ==> x !in Sectors(g, files[i].chain)
    ensures Files(g, v, files[k := FileRec([], 0)])
    ensures forall i :: 0 <= i < |files| && i != k ==> Untouched(g, v0, v, files[i])
  {
    hide Table, Sectors, Content, C.Freed, C.Apart;
    var s := files[k].chain;
    C.FreedChain(Table(g, v0), s);
    forall i | 0 <= i < |files| && i != k
      ensures Untouched(g, v0, v, files[i])
    {
      AfterFree(g, v0, s, v, x, files[i]);
    }
    EmptyFile(g, v, files);
  }

  lemma AfterFree(g: Geometry, v0: View, s: seq<nat>, v: View, x: nat, o: FileRec)
    requires Intact(g, v0, o) && g.Fits(v) && Table(g, v) == C.Cleared(Table(g, v0), s) && C.Apart(s, o.chain)
    requires forall t :: 0 <= t < g.nsects && !g.InFat(t) && t != x ==> v[t] == v0[t]
    requires x !in Sectors(g, o.chain)
    ensures Intact(g, v, o) && BytesOf(g, v, o) == BytesOf(g, v0, o)
  {
    hide Table, Sectors, Content;
    if o.chain != [] {
      C.ClearedOther(Table(g, v0), s, o.chain);
    }
    SpotsInView(g, v0, o.chain);
    SpotsInView(g, v, o.chain);
    forall j | 0 <= j < |Sectors(g, o.chain)| ensures v[Sectors(g, o.chain)[j]] == v0[Sectors(g, o.chain)[j]] {
      SectorInData(g, o.chain, j);
      assert Sectors(g, o.chain)[j] in Sectors(g, o.chain);
    }
    ContentFrame(v0, v, Sectors(g, o.chain), o.size);
  }

  lemma EmptyFile(g: Geometry, v: View, files: seq<FileRec>)
    requires g.WellFormed() && g.Fits(v)
    ensures Intact(g, v, FileRec([], 0))
    ensures forall i :: 0 <= i < |files| ==> C.Apart([], files[i].chain) && C.Apart(files[i].chain, [])
  {
  }

  // ----- power loss -----

  /**
   * Truncation and power loss: when the entry leads nowhere in every logical disk since, a content of the
   * medium on which a cluster is free that was in use before also shows the entry that leads nowhere.
   */
  lemma PowerLossAfterTruncate(g: Geometry, h0: History, h: History, s: nat, o: nat)
    requires g.WellFormed() && Snapshots(g, h0) && Snapshots(g, h) && Later(h0, h, {})
    requires o + ENTRY_SIZE <= SECTOR_SIZE && g.Seen(s) && s !in h0.exempt[|h0.exempt| - 1]
    requires EmptiedSince(h.log, |h0.log|, s, o)
    ensures EntryFirst(g, h0, h.images, |h0.images|, s, o)
  {
    hide Table, Emptied, Agree;
    forall k, c | |h0.images| <= k < |h.images| && g.ValidCluster(c) && InUse(g, h0, c)
      ensures g.Fits(h.images[k]) && (Table(g, h.images[k])[c] == 0 ==> Emptied(h.images[k], s, o))
    {
      ImageTable(g, h, k);
      assert h.stamps[|h0.stamps| - 1] == h0.stamps[|h0.stamps| - 1];
      var i := h.stamps[k];
      if i < |h0.log| {
        assert h.log[i] == h0.log[i];
      } else {
        assert Emptied(h.log[i], s, o);
        ShowsEntry(g, h, k, s, o);
      }
    }
  }

  lemma ShowsEntry(g: Geometry, h: History, k: nat, s: nat, o: nat)
    requires Snapshots(g, h) && k < |h.images| && g.Seen(s) && s !in h.exempt[k]
    requires o + ENTRY_SIZE <= SECTOR_SIZE && h.stamps[k] < |h.log| && Emptied(h.log[h.stamps[k]], s, o)
    ensures Emptied(h.images[k], s, o)
  {
    hide StartCluster, FileSize;
    assert ShowsMoment(g, h, k);
  }

  /** With nothing dirty the clusters in use are those of the table. */
  lemma InUseNow(fs: FatFs, c: nat)
    requires fs.Valid() && !fs.wflag && fs.geo.ValidCluster(c)
    ensures InUse(fs.geo, fs.Past(), c) <==> fs.Tab()[c] != 0
  {
    hide Table, FatFs.Coherent;
    fs.LogEnds();
  }

  /** Truncation as an update of the volume's files: one becomes empty, the others do not notice. */
  method TruncateFile(fs: FatFs, ghost files: seq<FileRec>, ghost k: nat, o: nat) returns (res: Fresult)
    requires fs.Valid() && fs.disk.reliable
    requires fs.winsect != 0 && !fs.geo.InFat(fs.winsect) && o + ENTRY_SIZE <= SECTOR_SIZE
    requires Files(fs.geo, fs.view, files) && k < |files| && files[k].chain != []
    requires StartCluster(EntryAt(fs.view, fs.winsect, o)) == files[k].chain[0]
    requires forall i :: 0 <= i < |files| && i != k ==> fs.winsect !in Sectors(fs.geo, files[i].chain)
    modifies fs`winsect, fs`wflag, fs`stamps, fs`exempt, fs`view, fs`log, fs`freeClust, fs`fsiFlag, fs`lastClust
    modifies fs.win, fs.disk
    ensures fs.Valid() && res == FrOk
    ensures Emptied(fs.view, fs.winsect, o) && fs.winsect == old(fs.winsect)
    ensures Files(fs.geo, fs.view, files[k := FileRec([], 0)])
    ensures forall i :: 0 <= i < |files| && i != k ==> Untouched(fs.geo, old(fs.view), fs.view, files[i])
    ensures forall i :: 0 <= i < |files[k].chain| ==> fs.Tab()[files[k].chain[i]] == 0
    ensures EntryFirst(fs.geo, old(fs.Past()), fs.disk.images, |old(fs.disk.images)|, old(fs.winsect), o)
  {
    hide Table, Sectors, Content, FatFs.Logged, FatFs.Coherent, FatFs.Current, C.Freed, C.Apart, PointAt, Reset;
    hide EntryFirst, WentOn, Later, SafeToFree, SecurePast, ImagesSafe, Untouched, Patch;
    ghost var v, s, x := fs.view, files[k].chain, fs.winsect;
    C.FreedChain(Table(fs.geo, v), s);
    ghost var from := |fs.log|;
    res := OpenTruncate(fs, o);
    fs.LogEnds();
    LastEmptied(fs.log, from, x, o);
    TruncateKeepsOthers(fs.geo, v, files, k, fs.view, x);
  }
}
