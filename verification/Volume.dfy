/**
 * The mounted volume (FATFS): a drive, a one-sector write-back window shared by the cluster table,
 * the directories and partial file sectors, and the cluster allocator on top of it.
 */
module Volume {
  import opened Bytes
  import opened Layout
  import opened FatTable
  import C = Chains

  datatype Fresult =
    | FrOk | FrDiskErr | FrIntErr | FrNotReady | FrNoFile | FrNoPath | FrInvalidName | FrDenied
    | FrExist | FrInvalidObject

  /** What `get_cluster` and `create_chain` return on a disk error. */
  const DISK_ERROR := 0xFFFF_FFFF

  /** `free_clust` when the number of free clusters is not known. */
  const UNKNOWN := 0xFFFF_FFFF

  /**
   * The drive. Any request may fail unless the drive is `reliable`; a failed request moves no data.
   * `images` remembers every content the medium has had.
   */
  class Disk {
    const reliable: bool
    var sectors: View
    ghost var images: seq<View>

    constructor (contents: View, reliable: bool)
      ensures sectors == contents && images == [contents] && this.reliable == reliable
    {
      sectors, images, this.reliable := contents, [contents], reliable;
    }

    method Read(sector: nat) returns (ok: bool, data: Sector)
      ensures ok ==> sector < |sectors| && data == sectors[sector]
      ensures reliable && sector < |sectors| ==> ok
    {
      var served: bool := *;
      ok := sector < |sectors| && (reliable || served);
      data := if ok then sectors[sector] else Blank();
    }

    /** `disk_read` of several sectors: one after the other, giving up at the first failure. */
    method ReadMany(sector: nat, count: nat) returns (ok: bool, data: seq<Sector>)
      ensures ok && 0 < count ==>
                sector + count <= |sectors| && data == sectors[sector..sector + count]
      ensures reliable && sector + count <= |sectors| ==> ok
    {
      data := [];
      ok := true;
      while |data| < count
        invariant ok && |data| <= count
        invariant data == [] || (sector + |data| <= |sectors| && data == sectors[sector..sector + |data|])
      {
        var one;
        ok, one := Read(sector + |data|);
        if !ok {
          return;
        }
        data := data + [one];
      }
    }

    method Write(sector: nat, data: Sector) returns (ok: bool)
      modifies this
      ensures ok ==> sector < |old(sectors)| && sectors == old(sectors)[sector := data]
      ensures !ok ==> sectors == old(sectors)
      ensures reliable && sector < |old(sectors)| ==> ok
      ensures images == old(images) + [sectors]
    {
      var served: bool := *;
      ok := sector < |sectors| && (reliable || served);
      if ok {
        sectors := sectors[sector := data];
      }
      images := images + [sectors];
    }
  }

  /** Every copy of the cluster table equals the first. */
  ghost predicate MirrorsAgree(g: Geometry, v: View)
    requires g.MirrorEnd() <= |v|
  {
    forall k, i :: 1 <= k < g.nFats && 0 <= i < g.sectsFat ==>
      CopySector(g, k, i) < |v| && v[CopySector(g, k, i)] == v[g.fatbase + i]
  }

  /** Sector `i` of FAT copy `k + 1`. */
  function CopySector(g: Geometry, k: nat, i: nat): nat {
    g.fatbase + Mul(k, g.sectsFat) + i
  }

  /** The copies follow each other, and the sectors of a copy do. */
  lemma CopyLayout(g: Geometry, k: nat, i: nat)
    ensures CopySector(g, 0, i) == g.fatbase + i
    ensures CopySector(g, k + 1, i) == CopySector(g, k, i) + g.sectsFat
    ensures CopySector(g, k, i + 1) == CopySector(g, k, i) + 1
  {
  }

  lemma CopySectorBounds(g: Geometry, k: nat, i: nat)
    requires g.WellFormed() && 1 <= k < g.nFats && i < g.sectsFat
    ensures g.Mirror(CopySector(g, k, i))
  {
    MulMonotone(1, k, g.sectsFat);
    MulMonotone(k, g.nFats, g.sectsFat);
  }

  lemma CopySectorsDistinct(g: Geometry, k: nat, i: nat, m: nat, j: nat)
    requires i < g.sectsFat && j < g.sectsFat
    ensures CopySector(g, k, i) == CopySector(g, m, j) ==> k == m && i == j
  {
    if k < m {
      MulMonotone(k, m, g.sectsFat);
    } else if m < k {
      MulMonotone(m, k, g.sectsFat);
    }
  }

  /** The copies agree, except that sector `i` may still be stale beyond copy `done + 1`. */
  ghost predicate MirrorsUpTo(g: Geometry, v: View, i: nat, done: nat) {
    forall k, j :: 1 <= k < g.nFats && 0 <= j < g.sectsFat && (j != i || k <= done) ==>
      CopySector(g, k, j) < |v| && g.fatbase + j < |v| && v[CopySector(g, k, j)] == v[g.fatbase + j]
  }

  /** Writing a table sector only leaves the copies of that sector stale. */
  lemma MirrorsStart(g: Geometry, v: View, i: nat, data: Sector)
    requires g.WellFormed() && g.Fits(v) && MirrorsAgree(g, v) && i < g.sectsFat
    ensures MirrorsUpTo(g, v[g.fatbase + i := data], i, 0)
  {
    forall k, j | 1 <= k < g.nFats && 0 <= j < g.sectsFat && j != i
      ensures v[CopySector(g, k, j)] == v[g.fatbase + j] && CopySector(g, k, j) != g.fatbase + i
    {
      CopySectorBounds(g, k, j);
    }
  }

  /** Copying the sector to one more copy. */
  lemma MirrorsStep(g: Geometry, v: View, i: nat, done: nat)
    requires g.WellFormed() && g.Fits(v) && i < g.sectsFat && 1 <= done + 1 < g.nFats
    requires MirrorsUpTo(g, v, i, done)
    ensures CopySector(g, done + 1, i) < |v|
    ensures MirrorsUpTo(g, v[CopySector(g, done + 1, i) := v[g.fatbase + i]], i, done + 1)
  {
    CopySectorBounds(g, done + 1, i);
    var v' := v[CopySector(g, done + 1, i) := v[g.fatbase + i]];
    forall k, j | 1 <= k < g.nFats && 0 <= j < g.sectsFat && (j != i || k <= done + 1)
      ensures CopySector(g, k, j) < |v'| && v'[CopySector(g, k, j)] == v'[g.fatbase + j]
    {
      CopySectorBounds(g, k, j);
      CopySectorsDistinct(g, k, j, done + 1, i);
    }
  }

  lemma MirrorsDone(g: Geometry, v: View, i: nat)
    requires g.WellFormed() && g.Fits(v) && MirrorsUpTo(g, v, i, g.nFats - 1)
    ensures MirrorsAgree(g, v)
  {
  }

  /** Writing outside the tables leaves the copies in agreement. */
  lemma MirrorsElsewhere(g: Geometry, v: View, s: nat, data: Sector)
    requires g.WellFormed() && g.Fits(v) && MirrorsAgree(g, v) && g.Seen(s) && !g.InFat(s)
    ensures MirrorsAgree(g, v[s := data])
  {
    forall k, i | 1 <= k < g.nFats && 0 <= i < g.sectsFat ensures CopySector(g, k, i) != s {
      CopySectorBounds(g, k, i);
    }
  }

  /** `img` shows what `v` shows, bar the FAT copies nobody reads and the sectors in `exempt`. */
  ghost predicate Agree(g: Geometry, exempt: set<nat>, img: View, v: View) {
    && g.Fits(img) && g.Fits(v)
    && forall s :: g.Seen(s) && s !in exempt ==> img[s] == v[s]
  }

  /** The same store on both sides. */
  lemma AgreeBoth(g: Geometry, img: View, v: View, s: nat, x: Sector)
    requires Agree(g, {}, img, v) && s < g.nsects
    ensures Agree(g, {}, img[s := x], v[s := x])
  {
  }

  /** The numbers `lo`, ..., `lo + n - 1`. */
  ghost function Range(lo: nat, n: nat): (r: set<nat>)
    ensures forall s :: s in r <==> lo <= s < lo + n
  {
    if n == 0 then {} else Range(lo, n - 1) + {lo + n - 1}
  }

  /** Writing a further FAT copy is invisible. */
  lemma AgreeMirror(g: Geometry, img: View, v: View, s: nat, data: Sector)
    requires Agree(g, {}, img, v) && g.Mirror(s) && s < g.nsects
    ensures Agree(g, {}, img[s := data], v)
  {
  }

  /**
   * The past of a volume: every logical disk, oldest first; every content the medium has had; and for
   * each of these the moment it shows and the data sectors in which it runs ahead of that moment,
   * because file writes have sent them past a dirty window.
   */
  datatype History = History(log: seq<View>, stamps: seq<nat>, exempt: seq<set<nat>>, images: seq<View>)

  /** The contents of the medium are, in order, snapshots of the logical disk. */
  ghost predicate Snapshots(g: Geometry, h: History) {
    && 0 < |h.log|
    && 0 < |h.stamps| == |h.exempt| == |h.images|
    && (forall k :: 0 <= k < |h.stamps| ==> ShowsMoment(g, h, k))
    && (forall j, k :: 0 <= j < k < |h.stamps| ==> h.stamps[j] <= h.stamps[k])
  }

  /** Image `k` is a snapshot of the moment it is stamped with. */
  ghost predicate ShowsMoment(g: Geometry, h: History, k: nat)
    requires k < |h.stamps| == |h.exempt| == |h.images|
  {
    && h.stamps[k] < |h.log| && Agree(g, h.exempt[k], h.images[k], h.log[h.stamps[k]])
    && InData(g, h.exempt[k])
  }

  ghost predicate InData(g: Geometry, ahead: set<nat>) {
    forall s :: s in ahead ==> g.database <= s
  }

  /** One more content of the medium. */
  ghost function Shot(h: History, now: nat, ahead: set<nat>, img: View): History {
    History(h.log, h.stamps + [now], h.exempt + [ahead], h.images + [img])
  }

  /** The medium takes on a content that shows the present or a moment no older than the last one. */
  lemma SnapshotImage(g: Geometry, h: History, now: nat, ahead: set<nat>, img: View)
    requires Snapshots(g, h)
    requires h.stamps[|h.stamps| - 1] <= now < |h.log| && Agree(g, ahead, img, h.log[now])
    requires InData(g, ahead)
    ensures Snapshots(g, Shot(h, now, ahead, img))
  {
    hide Agree;
    var h' := Shot(h, now, ahead, img);
    forall k | 0 <= k < |h'.stamps| ensures ShowsMoment(g, h', k) {
      if k < |h.stamps| {
        assert ShowsMoment(g, h, k);
      }
    }
  }

  /** The logical disk changes. */
  lemma SnapshotView(g: Geometry, h: History, v: View)
    requires Snapshots(g, h)
    ensures Snapshots(g, h.(log := h.log + [v]))
  {
    hide Agree;
    forall k | 0 <= k < |h.stamps| ensures ShowsMoment(g, h.(log := h.log + [v]), k) {
      assert ShowsMoment(g, h, k) && (h.log + [v])[h.stamps[k]] == h.log[h.stamps[k]];
    }
  }

  /** The last content of the medium turns out to show the present. */
  lemma SnapshotPresent(g: Geometry, h: History)
    requires Snapshots(g, h) && Agree(g, {}, h.images[|h.images| - 1], h.log[|h.log| - 1])
    ensures Snapshots(g, Restamped(h))
  {
    hide Agree;
    forall k | 0 <= k < |h.stamps| ensures ShowsMoment(g, Restamped(h), k) && h.stamps[k] < |h.log| {
      assert ShowsMoment(g, h, k);
    }
  }

  ghost function Restamped(h: History): History
    requires 0 < |h.stamps| == |h.exempt| && 0 < |h.log|
  {
    var last := |h.stamps| - 1;
    h.(stamps := h.stamps[last := |h.log| - 1], exempt := h.exempt[last := {}])
  }

  /**
   * History only grows, and the contents the medium has had since run ahead of the moments they show at
   * most in the sectors `own` and where the last content before did.
   */
  ghost predicate Later(h0: History, h: History, own: set<nat>) {
    && h0.log <= h.log && h0.stamps <= h.stamps && h0.exempt <= h.exempt && h0.images <= h.images
    && 0 < |h0.exempt| && AheadIn(h.exempt, |h0.exempt|, h0.exempt[|h0.exempt| - 1] + own)
  }

  /** From image `from` on, in these sectors at most. */
  ghost predicate AheadIn(exempt: seq<set<nat>>, from: nat, own: set<nat>) {
    forall k :: from <= k < |exempt| ==> exempt[k] <= own
  }

  lemma AheadLast(h0: History, h: History, own: set<nat>)
    requires Later(h0, h, own) && |h0.exempt| < |h.exempt|
    ensures h.exempt[|h.exempt| - 1] <= h0.exempt[|h0.exempt| - 1] + own
  {
  }

  lemma LaterShot(h0: History, h: History, own: set<nat>, now: nat, ahead: set<nat>, img: View)
    requires Later(h0, h, own) && 0 < |h0.exempt| && ahead <= h0.exempt[|h0.exempt| - 1] + own
    ensures Later(h0, Shot(h, now, ahead, img), own)
  {
  }

  lemma LaterRefl(h: History, own: set<nat>)
    requires 0 < |h.exempt|
    ensures Later(h, h, own)
  {
  }

  lemma LaterTrans(h0: History, h1: History, h2: History, own: set<nat>, more: set<nat>, all: set<nat>)
    requires Later(h0, h1, own) && Later(h1, h2, more) && own <= all && more <= all
    ensures Later(h0, h2, all)
  {
    var last := |h1.exempt| - 1;
    assert h1.exempt[last] <= h0.exempt[|h0.exempt| - 1] + own;
    forall k | |h0.exempt| <= k < |h2.exempt| ensures h2.exempt[k] <= h0.exempt[|h0.exempt| - 1] + all {
      if k <= last {
        assert h2.exempt[k] == h1.exempt[k];
      }
    }
  }

  /** No view in `log` from index `from` on has a table entry that links to a free cluster. */
  ghost predicate LinksSafe(g: Geometry, log: seq<View>, from: nat)
    requires g.WellFormed()
  {
    forall i :: from <= i < |log| ==> g.Fits(log[i]) && C.NoDangling(Table(g, log[i]))
  }

  lemma LinksSafeNone(g: Geometry, log: seq<View>)
    requires g.WellFormed()
    ensures LinksSafe(g, log, |log|)
  {
  }

  lemma LinksSafeMore(g: Geometry, log: seq<View>, from: nat, v: View)
    requires g.WellFormed() && g.Fits(v) && LinksSafe(g, log, from) && C.NoDangling(Table(g, v))
    ensures LinksSafe(g, log + [v], from)
  {
    hide Table, C.NoDangling;
  }

  /** If no entry linked to a free cluster when `log0` ended, none has since. */
  ghost predicate SafeRun(g: Geometry, log0: seq<View>, log: seq<View>)
  {
    && g.WellFormed() && 0 < |log0|
    && (LinksSafe(g, log0, |log0| - 1) ==> LinksSafe(g, log, |log0| - 1))
  }

  /** An operation is over: history only grew and, where one store changes one entry, links stayed safe. */
  ghost predicate WentOn(g: Geometry, h0: History, h: History, own: set<nat>) {
    Later(h0, h, own) && (g.fsType != Fat12 ==> SafeRun(g, h0.log, h.log))
  }

  /** The logical disk did not change. */
  lemma WentOnQuietly(g: Geometry, h0: History, h: History, own: set<nat>)
    requires g.WellFormed() && 0 < |h0.log| && h.log == h0.log && Later(h0, h, {})
    ensures WentOn(g, h0, h, own)
  {
    hide LinksSafe;
  }

  lemma WentOnWider(g: Geometry, h0: History, h: History, own: set<nat>, all: set<nat>)
    requires WentOn(g, h0, h, own) && own <= all
    ensures WentOn(g, h0, h, all)
  {
    hide SafeRun;
  }

  lemma WentOnTrans(g: Geometry, h0: History, h1: History, h2: History, own: set<nat>, more: set<nat>, all: set<nat>)
    requires WentOn(g, h0, h1, own) && WentOn(g, h1, h2, more) && own <= all && more <= all
    ensures WentOn(g, h0, h2, all)
  {
    hide SafeRun, AheadIn;
    LaterTrans(h0, h1, h2, own, more, all);
    if g.fsType != Fat12 {
      RunsAdjoin(g, h0.log, h1.log, h2.log);
    }
  }

  lemma RunsAdjoin(g: Geometry, log0: seq<View>, log1: seq<View>, log2: seq<View>)
    requires log0 <= log1 <= log2 && SafeRun(g, log0, log1) && SafeRun(g, log1, log2)
    ensures SafeRun(g, log0, log2)
  {
    hide LinksSafe;
    SafeRunTrans(g, log0, log1, log2);
  }

  lemma SafeRunTrans(g: Geometry, log0: seq<View>, log1: seq<View>, log2: seq<View>)
    requires g.WellFormed() && 0 < |log0| && log0 <= log1 <= log2
    requires SafeRun(g, log0, log1) && SafeRun(g, log1, log2)
    ensures SafeRun(g, log0, log2)
  {
    hide Table, C.NoDangling;
    if LinksSafe(g, log0, |log0| - 1) {
      assert LinksSafe(g, log1, |log1| - 1);
      forall i | |log0| - 1 <= i < |log2| ensures g.Fits(log2[i]) && C.NoDangling(Table(g, log2[i])) {
        if i < |log1| {
          assert log2[i] == log1[i];
        }
      }
    }
  }

  /** A new logical disk with the same table. */
  lemma SafeRunSame(g: Geometry, log: seq<View>, v: View)
    requires g.WellFormed() && 0 < |log| && g.Fits(log[|log| - 1]) && g.Fits(v)
    requires Table(g, v) == Table(g, log[|log| - 1])
    ensures SafeRun(g, log, log + [v])
  {
    hide Table, C.NoDangling;
    if LinksSafe(g, log, |log| - 1) {
      assert C.NoDangling(Table(g, log[|log| - 1]));
      LinksSafeMore(g, log, |log| - 1, v);
    }
  }

  /** A store outside FAT copy 1. */
  lemma DataStore(g: Geometry, log: seq<View>, v: View, x: nat, d: Sector)
    requires g.WellFormed() && g.Fits(v) && 0 < |log| && log[|log| - 1] == v && x < g.nsects && !g.InFat(x)
    ensures SafeRun(g, log, log + [v[x := d]])
  {
    hide Table;
    TableKept(g, v, v[x := d]);
    SafeRunSame(g, log, v[x := d]);
  }

  /** At most one more logical disk, with the same FAT copy 1. */
  lemma DataStores(g: Geometry, log0: seq<View>, log: seq<View>)
    requires g.WellFormed() && 0 < |log0| && g.Fits(log0[|log0| - 1])
    requires log == log0 || (|log| == |log0| + 1 && log0 <= log && g.Fits(log[|log0|]))
    requires forall x :: g.InFat(x) && |log| == |log0| + 1 ==> log[|log0|][x] == log0[|log0| - 1][x]
    ensures SafeRun(g, log0, log)
  {
    hide Table;
    if log != log0 {
      TableKept(g, log0[|log0| - 1], log[|log0|]);
      SafeRunSame(g, log0, log[|log0|]);
      assert log0 + [log[|log0|]] == log;
    }
  }

  lemma AgreeMore(g: Geometry, a: set<nat>, b: set<nat>, img: View, v: View)
    requires Agree(g, a, img, v) && a <= b
    ensures Agree(g, b, img, v)
  {
  }

  /** Afterwards the log grew, and perhaps a content taken on since was stamped anew. */
  lemma LaterLogged(h0: History, h1: History, h2: History, own: set<nat>)
    requires Later(h0, h1, own) && |h0.stamps| < |h1.stamps| == |h1.exempt| && |h0.stamps| == |h0.exempt|
    requires h1.log <= h2.log && 0 < |h2.log|
    requires h2 == h1.(log := h2.log) || h2 == Restamped(h1.(log := h2.log))
    ensures Later(h0, h2, own)
  {
  }

  lemma SafeRunIf(g: Geometry, log0: seq<View>, log: seq<View>)
    requires g.WellFormed() && 0 < |log0| && log0 <= log && g.Fits(log0[|log0| - 1])
    requires C.NoDangling(Table(g, log0[|log0| - 1])) ==> LinksSafe(g, log, |log0|)
    ensures SafeRun(g, log0, log)
  {
    hide Table, C.NoDangling;
    if LinksSafe(g, log0, |log0| - 1) {
      assert C.NoDangling(Table(g, log0[|log0| - 1]));
      SafeRunFrom(g, log0, log);
    }
  }

  lemma SafeRunFrom(g: Geometry, log0: seq<View>, log: seq<View>)
    requires g.WellFormed() && 0 < |log0| && log0 <= log && LinksSafe(g, log, |log0|)
    ensures SafeRun(g, log0, log)
  {
    hide Table, C.NoDangling;
    if LinksSafe(g, log0, |log0| - 1) {
      assert log[|log0| - 1] == log0[|log0| - 1];
    }
  }

  /** From content `j` of the medium on, no table entry on it links to a free cluster. */
  ghost predicate ImagesSafe(g: Geometry, images: seq<View>, j: nat)
    requires g.WellFormed()
  {
    forall k :: j <= k < |images| ==> g.Fits(images[k]) && C.NoDangling(Table(g, images[k]))
  }

  /** No logical disk since the moment the medium shows had an entry that links to a free cluster. */
  ghost predicate SecurePast(g: Geometry, h: History)
    requires g.WellFormed()
  {
    0 < |h.stamps| && LinksSafe(g, h.log, h.stamps[|h.stamps| - 1])
  }

  /** An image of the medium and the moment it shows have the same cluster table. */
  lemma ImageTable(g: Geometry, h: History, k: nat)
    requires g.WellFormed() && Snapshots(g, h) && k < |h.images|
    ensures h.stamps[k] < |h.log| && g.Fits(h.images[k]) && g.Fits(h.log[h.stamps[k]])
    ensures Table(g, h.images[k]) == Table(g, h.log[h.stamps[k]])
  {
    hide Table;
    assert ShowsMoment(g, h, k);
    TableKept(g, h.log[h.stamps[k]], h.images[k]);
  }

  /** The table only depends on FAT copy 1. */
  lemma TableKept(g: Geometry, v: View, v': View)
    requires g.WellFormed() && g.Fits(v) && g.Fits(v')
    requires forall x :: g.InFat(x) ==> v'[x] == v[x]
    ensures Table(g, v') == Table(g, v)
  {
    hide Entries;
    StoreElsewhere(g, v, v');
  }

  /**
   * Power loss during a safe run: whatever content the medium is left with, no entry on it links to a
   * free cluster, and the volume is as secure afterwards as it was.
   */
  lemma PowerLossKeepsLinks(g: Geometry, h0: History, h: History)
    requires g.WellFormed() && Snapshots(g, h0) && Snapshots(g, h)
    requires h0.log <= h.log && h0.stamps <= h.stamps && SafeRun(g, h0.log, h.log) && SecurePast(g, h0)
    ensures SecurePast(g, h) && ImagesSafe(g, h.images, |h0.images| - 1)
  {
    hide Table, C.NoDangling, Agree;
    var first := h0.stamps[|h0.stamps| - 1];
    assert LinksSafe(g, h.log, first) by {
      assert ShowsMoment(g, h0, |h0.stamps| - 1);
      forall i | first <= i < |h.log| ensures g.Fits(h.log[i]) && C.NoDangling(Table(g, h.log[i])) {
        if i < |h0.log| {
          assert h.log[i] == h0.log[i];
        }
      }
    }
    forall k | |h0.images| - 1 <= k < |h.images|
      ensures g.Fits(h.images[k]) && C.NoDangling(Table(g, h.images[k])) && first <= h.stamps[k]
    {
      ImageTable(g, h, k);
      assert h.stamps[|h0.stamps| - 1] == first;
    }
  }

  class FatFs {
    const geo: Geometry
    const disk: Disk
    const win: array<byte>
    var winsect: nat
    var wflag: bool
    var lastClust: nat
    var freeClust: nat
    var fsiFlag: bool

    /** Whether the FAT copies agreed at mount time on a reliable drive. */
    ghost const mirrored: bool

    /** The logical disk: what a reader of the volume sees, dirty window included. */
    ghost var view: View

    /** Every logical disk there has been, oldest first; the last is `view`. */
    ghost var log: seq<View>

    /** For each content the medium has had, the index in `log` of the moment it shows. */
    ghost var stamps: seq<nat>

    /** For each of them, the data sectors that file writes had sent past a dirty window. */
    ghost var exempt: seq<set<nat>>

    ghost function Past(): History
      reads `log, `stamps, `exempt, disk
    {
      History(log, stamps, exempt, disk.images)
    }

    /** Away from a dirty window the medium holds the logical disk. */
    ghost predicate Coherent()
      reads `winsect, `wflag, `view, disk
    {
      && geo.WellFormed() && geo.Fits(view) && geo.Fits(disk.sectors)
      && (wflag ==> winsect != 0)
      && (forall s :: geo.Seen(s) && !(wflag && s == winsect) ==> disk.sectors[s] == view[s])
      && (mirrored ==> disk.reliable && MirrorsAgree(geo, disk.sectors))
    }

    /** Metadata on the medium is a snapshot of the past, and never steps back in time. */
    ghost predicate Logged()
      reads `view, `log, `stamps, `exempt, disk
    {
      && Snapshots(geo, Past())
      && log[|log| - 1] == view && disk.images[|disk.images| - 1] == disk.sectors
    }

    /** The medium shows the present. */
    ghost predicate Present()
      reads `log, `stamps, `exempt
    {
      && 0 < |stamps| == |exempt|
      && stamps[|stamps| - 1] == |log| - 1 && exempt[|exempt| - 1] == {}
    }

    /** Only a dirty window can keep the medium from showing the present, and no file write overtakes it. */
    ghost predicate Current()
      reads `winsect, `wflag, `log, `stamps, `exempt
    {
      if wflag then 0 < |exempt| && winsect !in exempt[|exempt| - 1] else Present()
    }

    /** Allocation is only recorded on a volume whose FSInfo sector was found when it was mounted. */
    predicate InfoKnown()
      reads `freeClust, `fsiFlag
    {
      freeClust != UNKNOWN || fsiFlag ==> geo.FsInfoFits()
    }

    ghost predicate Valid()
      reads `winsect, `wflag, `freeClust, `fsiFlag, `view, `log, `stamps, `exempt, win, disk
    {
      && geo.WellFormed() && geo.Fits(view) && geo.Fits(disk.sectors)
      && win.Length == SECTOR_SIZE
      && (winsect != 0 ==> geo.Windowed(winsect) && win[..] == view[winsect])
      && Coherent()
      && Logged()
      && Current()
      && InfoKnown()
    }

    /** What is left of `Valid` after a failed direct transfer: a data sector the window shows may be old. */
    ghost predicate Shaken()
      reads `winsect, `wflag, `freeClust, `fsiFlag, `view, `log, `stamps, `exempt, win, disk
    {
      && geo.WellFormed() && Coherent() && Logged()
      && (winsect < geo.database ==> Valid())
    }

    /** No logical disk since the moment the medium shows had a link to a free cluster. */
    ghost predicate Secure()
      requires geo.WellFormed()
      reads `log, `stamps, `exempt, disk
    {
      SecurePast(geo, Past())
    }

    /** The tail of `auto_mount`: nothing is cached yet. */
    constructor (geo: Geometry, disk: Disk, lastClust: nat, freeClust: nat, ghost mirrored: bool)
      requires geo.WellFormed() && geo.Fits(disk.sectors) && disk.images == [disk.sectors]
      requires mirrored ==> disk.reliable && MirrorsAgree(geo, disk.sectors)
      requires freeClust != UNKNOWN ==> geo.FsInfoFits()
      ensures Valid() && fresh(win)
      ensures this.geo == geo && this.disk == disk && this.mirrored == mirrored
      ensures view == disk.sectors && !wflag && winsect == 0
      ensures this.lastClust == lastClust && this.freeClust == freeClust
      ensures log == [view] && stamps == [0] && exempt == [{}]
      ensures C.NoDangling(Tab()) <==> Secure()
    {
      hide C.NoDangling, Table;
      this.geo, this.disk, this.mirrored := geo, disk, mirrored;
      win := new byte[SECTOR_SIZE](_ => 0);
      winsect, wflag, fsiFlag := 0, false, false;
      this.lastClust, this.freeClust := lastClust, freeClust;
      view, log, stamps, exempt := disk.sectors, [disk.sectors], [0], [{}];
      new;
      SecureAtFirst();
    }

    /** When there is only one moment it decides. */
    lemma SecureAtFirst()
      requires geo.WellFormed() && geo.Fits(view) && log == [view] && stamps == [0]
      ensures C.NoDangling(Tab()) <==> Secure()
    {
      hide C.NoDangling, Table;
      if C.NoDangling(Tab()) {
        assert LinksSafe(geo, log, 0);
      } else {
        assert log[0] == view;
      }
    }

    /** Record which moment the medium shows after a write. */
    ghost method Stamp(images: seq<View>, now: nat, ahead: set<nat>)
      requires Snapshots(geo, Past().(images := images)) && log[|log| - 1] == view
      requires disk.images == images + [disk.sectors]
      requires stamps[|stamps| - 1] <= now < |log| && Agree(geo, ahead, disk.sectors, log[now])
      requires InData(geo, ahead)
      modifies `stamps, `exempt
      ensures Logged() && stamps == old(stamps) + [now] && exempt == old(exempt) + [ahead]
    {
      hide Agree;
      SnapshotImage(geo, Past().(images := images), now, ahead, disk.sectors);
      stamps, exempt := stamps + [now], exempt + [ahead];
    }

    /** `move_window`: write the dirty window where it belongs. */
    method WriteWindow() returns (ok: bool)
      requires Valid() && wflag
      modifies `stamps, `exempt, disk
      ensures Logged() && Later(old(Past()), Past(), {})
      ensures disk.reliable ==> ok
      ensures disk.sectors == if ok then old(disk.sectors)[winsect := win[..]] else old(disk.sectors)
      ensures ok ==> Present() && Agree(geo, {}, disk.sectors, view)
      ensures !ok ==> 0 < |exempt| && winsect !in exempt[|exempt| - 1]
    {
      hide Snapshots, MirrorsAgree;
      ghost var images := disk.images;
      LastMoment();
      ok := disk.Write(winsect, win[..]);
      Stamp(images, if ok then |log| - 1 else stamps[|stamps| - 1], if ok then {} else exempt[|exempt| - 1]);
    }

    /** `move_window`, first half: write the dirty window back, then refresh the FAT copies. */
    method WriteBack() returns (ok: bool)
      requires Valid() && wflag
      modifies `wflag, `stamps, `exempt, disk
      ensures Valid()
      ensures wflag == !ok
      ensures disk.reliable ==> ok
      ensures Later(old(Past()), Past(), {})
    {
      hide Snapshots, Logged, Later, MirrorsAgree;
      ghost var before, h := disk.sectors, Past();
      ok := WriteWindow();
      if !ok {
        return;
      }
      wflag := false;
      ghost var h1 := Past();
      LaterNow();
      if winsect < geo.fatbase + geo.sectsFat {
        Refresh(winsect, before);
      } else if mirrored {
        MirrorsElsewhere(geo, before, winsect, win[..]);
      }
      LaterTrans(h, h1, Past(), {}, {}, {});
    }

    /** What `Logged` says about the last content of the medium. */
    lemma LastMoment()
      requires Logged()
      ensures 0 < |stamps| == |exempt| == |disk.images| && stamps[|stamps| - 1] < |log|
      ensures Agree(geo, exempt[|exempt| - 1], disk.sectors, log[stamps[|stamps| - 1]])
      ensures InData(geo, exempt[|exempt| - 1])
      ensures Present() ==> Agree(geo, {}, disk.sectors, view)
    {
      hide Agree;
      assert ShowsMoment(geo, Past(), |stamps| - 1);
    }

    /** `move_window`: bring the further FAT copies up to date, ignoring failures. */
    method Refresh(sector: nat, ghost before: View)
      requires geo.WellFormed() && geo.InFat(sector)
      requires geo.Fits(before) && geo.Fits(disk.sectors) && win.Length == SECTOR_SIZE
      requires mirrored ==> disk.reliable && MirrorsAgree(geo, before)
      requires disk.sectors == before[sector := win[..]]
      requires Logged() && Present() && Agree(geo, {}, disk.sectors, view)
      modifies `stamps, `exempt, disk
      ensures Logged() && Present() && Agree(geo, {}, disk.sectors, view)
      ensures mirrored ==> MirrorsAgree(geo, disk.sectors)
      ensures Later(old(Past()), Past(), {})
    {
      hide Snapshots, MirrorsUpTo, MirrorsAgree, Agree, Later;
      var wsect := sector;
      var nf := geo.nFats;
      ghost var i := sector - geo.fatbase;
      if mirrored {
        MirrorsStart(geo, before, i, win[..]);
      }
      LaterRefl(Past(), {});
      while nf >= 2
        invariant 1 <= nf <= geo.nFats && wsect == CopySector(geo, geo.nFats - nf, i)
        invariant Logged() && Present() && Agree(geo, {}, disk.sectors, view)
        invariant geo.Fits(disk.sectors) && disk.sectors[sector] == win[..]
        invariant mirrored ==> MirrorsUpTo(geo, disk.sectors, i, geo.nFats - nf)
        invariant Later(old(Past()), Past(), {})
      {
        ghost var h := Past();
        wsect := wsect + geo.sectsFat;
        RefreshOne(wsect, i, geo.nFats - nf);
        LaterTrans(old(Past()), h, Past(), {}, {}, {});
        nf := nf - 1;
      }
      if mirrored {
        MirrorsDone(geo, disk.sectors, i);
      }
    }

    /** One turn of the loop over the further FAT copies. */
    method RefreshOne(wsect: nat, ghost i: nat, ghost done: nat)
      requires geo.WellFormed() && geo.Fits(disk.sectors) && win.Length == SECTOR_SIZE
      requires i < geo.sectsFat && 1 <= done + 1 < geo.nFats && wsect == CopySector(geo, done + 1, i)
      requires disk.sectors[geo.fatbase + i] == win[..]
      requires Logged() && Present() && Agree(geo, {}, disk.sectors, view)
      requires mirrored ==> disk.reliable && MirrorsUpTo(geo, disk.sectors, i, done)
      modifies `stamps, `exempt, disk
      ensures Logged() && Present() && Agree(geo, {}, disk.sectors, view)
      ensures geo.Fits(disk.sectors) && disk.sectors[geo.fatbase + i] == win[..]
      ensures mirrored ==> MirrorsUpTo(geo, disk.sectors, i, done + 1)
      ensures Later(old(Past()), Past(), {})
    {
      hide Snapshots, MirrorsUpTo, MirrorsAgree, Agree;
      ghost var last, images := disk.sectors, disk.images;
      LastMoment();
      CopySectorBounds(geo, done + 1, i);
      AgreeMirror(geo, last, view, wsect, win[..]);
      AgreeMirror(geo, last, view, wsect, last[wsect]);
      assert last[wsect := last[wsect]] == last;
      var ok := disk.Write(wsect, win[..]);
      Stamp(images, |log| - 1, {});
      if mirrored {
        MirrorsStep(geo, last, i, done);
      }
    }

    /**
     * `move_window`: make `sector` appear in the window, or with 0 only write the window back.
     * The logical disk never changes.
     */
    method MoveWindow(sector: nat) returns (res: Fresult)
      requires Valid() && (sector == 0 || geo.Windowed(sector))
      modifies `winsect, `wflag, `stamps, `exempt, win, disk
      ensures Valid()
      ensures res == FrOk || res == FrDiskErr
      ensures disk.reliable ==> res == FrOk
      ensures old(winsect) != 0 ==> winsect != 0
      ensures old(winsect) == sector ==>
                res == FrOk && winsect == sector && wflag == old(wflag) && disk.sectors == old(disk.sectors)
      ensures res == FrOk && old(winsect) != sector ==> !wflag
      ensures !old(wflag) ==> !wflag
      ensures res == FrOk && sector != 0 ==> winsect == sector && win[..] == view[sector]
      ensures res == FrOk && sector == 0 ==> winsect == old(winsect)
      ensures res != FrOk ==> winsect == old(winsect)
      ensures !old(wflag) ==> disk.sectors == old(disk.sectors)
      ensures Later(old(Past()), Past(), {})
    {
      hide Snapshots, MirrorsAgree, Agree, Later, AheadIn;
      LaterNow();
      if winsect != sector {
        if wflag {
          var ok := WriteBack();
          if !ok {
            return FrDiskErr;
          }
        }
        if sector != 0 {
          var ok, data := disk.Read(sector);
          if !ok {
            return FrDiskErr;
          }
          forall i | 0 <= i < SECTOR_SIZE {
            win[i] := data[i];
          }
          winsect := sector;
        }
      }
      return FrOk;
    }

    /** Store bytes in the window and mark it dirty. */
    method Poke(o: nat, d: seq<byte>)
      requires Valid() && winsect != 0 && o + |d| <= SECTOR_SIZE
      modifies `wflag, `view, `log, win
      ensures Valid() && wflag
      ensures view == old(view)[winsect := Patch(old(view)[winsect], o, d)]
      ensures log == old(log) + [view] && Later(old(Past()), Past(), {})
    {
      hide Snapshots;
      forall i | 0 <= i < |d| {
        win[o + i] := d[i];
      }
      wflag := true;
      ghost var v := view[winsect := win[..]];
      assert win[..] == Patch(view[winsect], o, d);
      SnapshotView(geo, Past(), v);
      view, log := v, log + [v];
    }

    /**
     * Store bytes at the start of `sector` without reading it first: the window is written back,
     * tagged with `sector` as it stands and then patched, so the rest of the sector becomes
     * whatever the window held.
     */
    method PokeFresh(sector: nat, d: seq<byte>) returns (res: Fresult)
      requires Valid() && geo.Windowed(sector) && |d| <= SECTOR_SIZE
      modifies `winsect, `wflag, `stamps, `exempt, `view, `log, win, disk
      ensures Valid()
      ensures res == FrOk || res == FrDiskErr
      ensures disk.reliable ==> res == FrOk
      ensures res != FrOk ==> view == old(view) && log == old(log)
      ensures res == FrOk ==>
                && winsect == sector && wflag
                && (exists junk: Sector :: view == old(view)[sector := Patch(junk, 0, d)])
                && log == old(log) + [view]
      ensures Later(old(Past()), Past(), {})
      ensures !old(wflag) ==> disk.sectors == old(disk.sectors)
    {
      hide Logged, Current, AheadIn;
      ghost var h := Past();
      res := MoveWindow(0);
      if res == FrOk {
        ghost var h1 := Past();
        Retag(sector, d);
        LaterTrans(h, h1, Past(), {}, {}, {});
      }
    }

    /** The window stands for `sector` from now on, with `d` at the start of whatever it held. */
    method Retag(sector: nat, d: seq<byte>)
      requires Valid() && !wflag && geo.Windowed(sector) && |d| <= SECTOR_SIZE
      modifies `winsect, `wflag, `view, `log, win
      ensures Valid() && winsect == sector && wflag
      ensures exists junk: Sector :: view == old(view)[sector := Patch(junk, 0, d)]
      ensures log == old(log) + [view] && Later(old(Past()), Past(), {})
    {
      hide Snapshots;
      ghost var junk: Sector := win[..];
      winsect := sector;
      forall i | 0 <= i < |d| {
        win[i] := d[i];
      }
      wflag := true;
      ghost var v := view[sector := Patch(junk, 0, d)];
      assert win[..] == Patch(junk, 0, d);
      SnapshotView(geo, Past(), v);
      view, log := v, log + [v];
    }

    /** The window buffer holds a blank sector and nothing is dirty; `winsect` may be anything. */
    ghost predicate BlankBuffer()
      reads `wflag, `winsect, `freeClust, `fsiFlag, `view, `log, `stamps, `exempt, win, disk
    {
      && geo.WellFormed() && geo.Fits(view) && geo.Fits(disk.sectors) && win.Length == SECTOR_SIZE
      && !wflag && win[..] == Blank() && Coherent() && Logged() && Present() && InfoKnown()
    }

    /** `dir_next`: the blank buffer becomes the content of the sector the window is tagged with. */
    method TagBlank()
      requires BlankBuffer() && winsect != 0 && geo.Windowed(winsect)
      modifies `wflag, `view, `log
      ensures Valid() && wflag
      ensures view == old(view)[winsect := Blank()] && log == old(log) + [view]
      ensures Later(old(Past()), Past(), {})
    {
      hide Snapshots, Agree, MirrorsAgree, Blank;
      wflag := true;
      ghost var v := view[winsect := Blank()];
      SnapshotView(geo, Past(), v);
      view, log := v, log + [v];
    }

    /** `dir_next`: one turn of the clearing loop. */
    method ClearOne() returns (res: Fresult)
      requires BlankBuffer() && winsect != 0 && geo.Windowed(winsect)
      modifies `winsect, `wflag, `stamps, `exempt, `view, `log, win, disk
      ensures res == FrOk || res == FrDiskErr
      ensures disk.reliable ==> res == FrOk
      ensures if res == FrOk then BlankBuffer() && winsect == old(winsect) + 1 else Valid()
      ensures view == old(view)[old(winsect) := Blank()] && log == old(log) + [view]
      ensures Later(old(Past()), Past(), {})
    {
      hide Coherent, Logged, Current, Blank;
      TagBlank();
      res := MoveWindow(0);
      if res == FrOk {
        NextTag();
      }
    }

    method NextTag()
      requires Valid() && !wflag && win[..] == Blank()
      modifies `winsect
      ensures BlankBuffer() && winsect == old(winsect) + 1
    {
      hide Snapshots, Agree, MirrorsAgree, Blank;
      winsect := winsect + 1;
    }

    /** `dir_next`: flush the window and clear its buffer for the cluster at `base`. */
    method BlankWindow(base: nat) returns (res: Fresult)
      requires Valid() && geo.Windowed(base)
      modifies `winsect, `wflag, `stamps, `exempt, win, disk
      ensures res == FrOk || res == FrDiskErr
      ensures disk.reliable ==> res == FrOk
      ensures if res == FrOk then BlankBuffer() && winsect == base else Valid()
      ensures Later(old(Past()), Past(), {})
    {
      hide Snapshots, Agree, MirrorsAgree;
      res := MoveWindow(0);
      if res == FrOk {
        forall i | 0 <= i < SECTOR_SIZE {
          win[i] := 0;
        }
        winsect := base;
      }
    }

    /** `dir_next`: clear sector `c` of the cluster at `base`. */
    method FillStep(base: nat, c: nat, ghost v0: View, ghost h0: History) returns (res: Fresult)
      requires BlankBuffer() && winsect == base + c && geo.database <= base && base + c < geo.nsects && geo.Fits(v0)
      requires view == Overlay(v0, base, Blanks(c))
      requires 0 < |h0.log| && Later(h0, Past(), {}) && SafeRun(geo, h0.log, log)
      modifies `winsect, `wflag, `stamps, `exempt, `view, `log, win, disk
      ensures res == FrOk || res == FrDiskErr
      ensures disk.reliable ==> res == FrOk
      ensures if res == FrOk then BlankBuffer() && winsect == old(winsect) + 1 else Valid()
      ensures view == Overlay(v0, base, Blanks(c + 1))
      ensures Later(h0, Past(), {}) && SafeRun(geo, h0.log, log)
    {
      hide Coherent, Logged, Current, Blank, Overlay, Blanks, AheadIn, SafeRun, LinksSafe, Table;
      OverlayBlank(v0, base, c);
      ghost var h, v := Past(), view;
      LogEnds();
      res := ClearOne();
      LaterTrans(h0, h, Past(), {}, {}, {});
      DataStore(geo, h.log, v, base + c, Blank());
      SafeRunTrans(geo, h0.log, h.log, log);
    }

    /**
     * `dir_next`: clear a whole cluster through the window, sector by sector; in the end the window
     * shows its first sector. `done` sectors were cleared.
     */
    method FillBlank(base: nat) returns (res: Fresult, ghost done: nat)
      requires Valid() && geo.database <= base && base + geo.csize <= geo.nsects
      modifies `winsect, `wflag, `stamps, `exempt, `view, `log, win, disk
      ensures Valid()
      ensures res == FrOk || res == FrDiskErr
      ensures disk.reliable ==> res == FrOk
      ensures res == FrOk ==> done == geo.csize && winsect == base
      ensures done <= geo.csize && view == Overlay(old(view), base, Blanks(done))
      ensures WentOn(geo, old(Past()), Past(), {})
    {
      hide Coherent, Logged, Current, Blank, Overlay, Blanks, AheadIn, SafeRun, LinksSafe, Table;
      done := 0;
      LogEnds();
      LaterRefl(Past(), {});
      DataStores(geo, log, log);
      OverlayNone(view, base, Blanks(0));
      res := BlankWindow(base);
      if res != FrOk {
        return;
      }
      var c := 0;
      while c < geo.csize
        invariant 0 <= c <= geo.csize && done == c && winsect == base + c && res == FrOk
        invariant BlankBuffer()
        invariant view == Overlay(old(view), base, Blanks(c))
        invariant Later(old(Past()), Past(), {}) && SafeRun(geo, old(log), log)
      {
        res := FillStep(base, c, old(view), old(Past()));
        done := c + 1;
        if res != FrOk {
          return;
        }
        c := c + 1;
      }
      FirstBlank(old(view), base, c);
      Rewind(c);
    }

    method Rewind(c: nat)
      requires BlankBuffer() && c < winsect && geo.Windowed(winsect - c) && view[winsect - c] == Blank()
      modifies `winsect
      ensures Valid() && winsect == old(winsect) - c
    {
      hide Snapshots, Agree, MirrorsAgree, Blank;
      winsect := winsect - c;
    }

    /** The moment the medium shows, and where it may differ from it once `n` sectors are overtaken. */
    lemma RunAhead(sect: nat, n: nat) returns (now: nat, ahead: set<nat>)
      requires Logged() && geo.WellFormed() && geo.database <= sect
      ensures 0 < |stamps| == |exempt| && now == stamps[|stamps| - 1] < |log|
      ensures ahead == exempt[|exempt| - 1] + Range(sect, n) && InData(geo, ahead)
      ensures Agree(geo, ahead, disk.sectors, log[now])
      ensures forall s :: sect <= s < sect + n ==> s in ahead
    {
      hide Logged, Agree, Range;
      LastMoment();
      now, ahead := stamps[|stamps| - 1], exempt[|exempt| - 1] + Range(sect, n);
      AgreeMore(geo, exempt[|exempt| - 1], ahead, disk.sectors, log[now]);
    }

    /** `disk_write` of several sectors: one after the other, giving up at the first failure. */
    method DiskWrite(sect: nat, d: seq<Sector>) returns (ok: bool, ghost n: nat)
      requires Logged() && geo.WellFormed() && geo.Fits(view) && geo.Fits(disk.sectors)
      requires mirrored ==> MirrorsAgree(geo, disk.sectors)
      requires geo.database <= sect && sect + |d| <= geo.nsects && d != []
      modifies `stamps, `exempt, disk
      ensures Logged() && Later(old(Past()), Past(), Range(sect, |d|)) && |old(stamps)| < |stamps|
      ensures disk.reliable ==> ok
      ensures n <= |d| && (ok <==> n == |d|) && disk.sectors == Overlay(old(disk.sectors), sect, d[..n])
      ensures mirrored ==> MirrorsAgree(geo, disk.sectors)
    {
      hide Logged, Coherent, MirrorsAgree, Overlay, Agree, Later, Snapshots, Range, InData;
      LogEnds();
      ghost var before, h := disk.sectors, Past();
      ghost var now, ahead := RunAhead(sect, |d|);
      ok, n := true, 0;
      var i := 0;
      LaterRefl(h, Range(sect, |d|));
      OverlayNone(before, sect, d[..0]);
      while i < |d|
        invariant 0 <= i == n <= |d| && Logged() && disk.sectors == Overlay(before, sect, d[..n])
        invariant 0 < |stamps| && stamps[|stamps| - 1] == now < |log| && Agree(geo, ahead, disk.sectors, log[now])
        invariant Later(h, Past(), Range(sect, |d|)) && |stamps| == |h.stamps| + i
        invariant mirrored ==> MirrorsAgree(geo, disk.sectors)
      {
        ghost var mid := Past();
        ok := DiskWriteOne(sect + i, d[i], now, ahead);
        LaterShot(h, mid, Range(sect, |d|), now, ahead, disk.sectors);
        if !ok {
          return;
        }
        OverlayMore(before, sect, d, n);
        i, n := i + 1, i + 1;
      }
      assert d[..n] == d;
    }

    /** One sector of a transfer past the window. */
    method DiskWriteOne(s: nat, x: Sector, ghost now: nat, ghost ahead: set<nat>) returns (ok: bool)
      requires Logged() && geo.WellFormed() && geo.Fits(disk.sectors) && geo.database <= s < geo.nsects
      requires 0 < |stamps| && stamps[|stamps| - 1] == now < |log| && Agree(geo, ahead, disk.sectors, log[now])
      requires s in ahead && InData(geo, ahead)
      requires mirrored ==> MirrorsAgree(geo, disk.sectors)
      modifies `stamps, `exempt, disk
      ensures Logged() && (disk.reliable ==> ok)
      ensures disk.sectors == if ok then old(disk.sectors)[s := x] else old(disk.sectors)
      ensures Past() == Shot(old(Past()), now, ahead, disk.sectors)
      ensures Agree(geo, ahead, disk.sectors, log[now])
      ensures mirrored ==> MirrorsAgree(geo, disk.sectors)
    {
      hide Snapshots, MirrorsAgree;
      ghost var images, last := disk.images, disk.sectors;
      ok := disk.Write(s, x);
      Stamp(images, now, ahead);
      if mirrored && ok {
        MirrorsElsewhere(geo, last, s, x);
      }
    }

    /**
     * A transfer of whole sectors that bypasses the window: `disk_write`, then a window that shows
     * one of the sectors takes over the new content and is clean again. When the drive gives up half
     * way a window clear of the transfer leaves the volume as sound as before.
     */
    method WriteThrough(sect: nat, d: seq<Sector>) returns (ok: bool)
      requires Valid() && geo.database <= sect && sect + |d| <= geo.nsects && d != []
      modifies `wflag, `stamps, `exempt, `view, `log, win, disk
      ensures disk.reliable ==> ok
      ensures ok ==> Valid() && view == Overlay(old(view), sect, d) && log == old(log) + [view]
      ensures Shaken() && (!ok ==> wflag == old(wflag))
      ensures !ok && !(sect <= winsect < sect + |d|) ==>
                Valid() && exists n :: 0 <= n < |d| && view == Overlay(old(view), sect, d[..n])
      ensures WentOn(geo, old(Past()), Past(), Range(sect, |d|))
    {
      hide Snapshots, MirrorsAgree, Agree, Overlay, AheadIn, SafeRun;
      ghost var before, h, n := disk.sectors, Past(), 0;
      LogEnds();
      LastMoment();
      ok, n := DiskWrite(sect, d);
      ghost var mid := Past();
      LogEnds();
      AheadLast(h, mid, Range(sect, |d|));
      if ok {
        assert d[..n] == d;
        Refill(sect, d, before);
      } else {
        LogPartial(sect, d, n, before);
      }
      LaterLogged(h, mid, Past(), Range(sect, |d|));
      DataStores(geo, h.log, log);
    }

    /** Nothing has been shaken yet. */
    lemma Standing()
      requires Valid()
      ensures Shaken() && geo.WellFormed() && geo.Fits(view)
    {
    }

    /** Nothing has happened yet. */
    lemma NothingYet()
      requires Valid()
      ensures WentOn(geo, Past(), Past(), {})
      ensures 0 < |log| && log[|log| - 1] == view && Snapshots(geo, Past())
    {
      hide Coherent, Current;
      LaterNow();
      LogEnds();
      WentOnQuietly(geo, Past(), Past(), {});
    }

    /** One store outside the table, perhaps after the window moved. */
    lemma OneStore(h0: History, h: History)
      requires Valid() && Later(h0, h, {}) && Later(h, Past(), {}) && 0 < |h.log| && h0.log == h.log
      requires geo.Fits(h.log[|h.log| - 1]) && log == h.log + [view]
      requires forall x :: geo.InFat(x) ==> view[x] == h.log[|h.log| - 1][x]
      ensures WentOn(geo, h0, Past(), {})
    {
      hide Coherent, Current, Logged, SafeRun;
      LaterTrans(h0, h, Past(), {}, {}, {});
      DataStores(geo, h0.log, log);
    }

    /** Make a sector outside the table appear in the window and store into it. */
    method EditAt(sector: nat, o: nat, d: seq<byte>) returns (res: Fresult)
      requires Valid() && geo.Windowed(sector) && !geo.InFat(sector) && o + |d| <= SECTOR_SIZE
      modifies `winsect, `wflag, `stamps, `exempt, `view, `log, win, disk
      ensures Valid()
      ensures res == FrOk || res == FrDiskErr
      ensures disk.reliable ==> res == FrOk
      ensures res == FrOk ==>
                winsect == sector && wflag && view == old(view)[sector := Patch(old(view)[sector], o, d)]
      ensures res != FrOk ==> view == old(view)
      ensures !old(wflag) ==> disk.sectors == old(disk.sectors)
      ensures WentOn(geo, old(Past()), Past(), {})
    {
      hide Coherent, Logged, Current, Patch, WentOn, Later;
      NothingYet();
      ghost var h := Past();
      res := MoveWindow(sector);
      ghost var h1 := Past();
      WentOnQuietly(geo, h, h1, {});
      if res == FrOk {
        Poke(o, d);
        OneStore(h, h1);
      }
    }

    /** What went on safely since `h` left the volume as secure as it was, on the medium too. */
    lemma StaysSecure(h: History, own: set<nat>)
      requires Logged() && geo.WellFormed() && Snapshots(geo, h) && WentOn(geo, h, Past(), own)
      ensures geo.fsType != Fat12 && SecurePast(geo, h) ==> Secure() && ImagesSafe(geo, disk.images, |h.images| - 1)
    {
      hide Coherent, Current, SafeRun, SecurePast, ImagesSafe;
      LogEnds();
      if geo.fsType != Fat12 && SecurePast(geo, h) {
        PowerLossKeepsLinks(geo, h, Past());
      }
    }

    /** The log ends in the present. */
    lemma LogEnds()
      requires Logged()
      ensures 0 < |log| && log[|log| - 1] == view && 0 < |stamps| == |exempt| && Snapshots(geo, Past())
    {
      hide Agree;
    }

    /** The refill after a direct transfer; the subtraction is unsigned. */
    method Refill(sect: nat, d: seq<Sector>, ghost before: View)
      requires Logged() && InfoKnown() && geo.WellFormed() && geo.Fits(view) && geo.Fits(before)
      requires win.Length == SECTOR_SIZE
      requires winsect != 0 ==> geo.Windowed(winsect) && win[..] == view[winsect]
      requires wflag ==> winsect != 0
      requires wflag && 0 < |exempt| && winsect in exempt[|exempt| - 1] ==> sect <= winsect < sect + |d|
      requires forall s :: geo.Seen(s) && !(wflag && s == winsect) ==> before[s] == view[s]
      requires geo.database <= sect && sect + |d| <= geo.nsects
      requires disk.sectors == Overlay(before, sect, d)
      requires mirrored ==> disk.reliable && MirrorsAgree(geo, disk.sectors)
      modifies `wflag, `stamps, `exempt, `view, `log, win
      ensures Valid() && view == Overlay(old(view), sect, d) && log == old(log) + [view]
      ensures Past() == old(Past()).(log := log) || Past() == Restamped(old(Past()).(log := log))
    {
      hide Snapshots, MirrorsAgree, Agree, Overlay;
      TakeOver(sect, d);
      ghost var v := Overlay(view, sect, d);
      LogEnds();
      SnapshotView(geo, Past(), v);
      view, log := v, log + [v];
      if !wflag {
        MakePresent();
      }
    }

    /** A window that shows one of the transferred sectors takes over its new content and is clean. */
    method TakeOver(sect: nat, d: seq<Sector>)
      requires win.Length == SECTOR_SIZE && winsect < TWO32 && sect + |d| <= TWO32
      modifies `wflag, win
      ensures if sect <= winsect < sect + |d| then !wflag && win[..] == d[winsect - sect]
              else wflag == old(wflag) && win[..] == old(win[..])
    {
      if (winsect - sect) % TWO32 < |d| {
        forall j | 0 <= j < SECTOR_SIZE {
          win[j] := d[winsect - sect][j];
        }
        wflag := false;
      }
    }

    /** With nothing dirty the last content of the medium shows the present. */
    ghost method MakePresent()
      requires Logged() && geo.Fits(view) && geo.Fits(disk.sectors)
      requires forall s :: geo.Seen(s) ==> disk.sectors[s] == view[s]
      modifies `stamps, `exempt
      ensures Logged() && Present() && 0 < |old(stamps)| == |old(exempt)| && 0 < |log|
      ensures Past() == Restamped(old(Past()))
    {
      LogEnds();
      SnapshotPresent(geo, Past());
      var h := Restamped(Past());
      stamps, exempt := h.stamps, h.exempt;
    }

    /** A transfer that failed after `n` sectors: the logical disk follows, except under a dirty window. */
    ghost method LogPartial(sect: nat, d: seq<Sector>, n: nat, before: View)
      requires Logged() && InfoKnown() && geo.WellFormed() && geo.Fits(view) && geo.Fits(before) && n < |d|
      requires win.Length == SECTOR_SIZE
      requires winsect != 0 ==> geo.Windowed(winsect) && win[..] == view[winsect]
      requires wflag ==> winsect != 0
      requires wflag && 0 < |exempt| && winsect in exempt[|exempt| - 1] ==> sect <= winsect < sect + |d|
      requires forall s :: geo.Seen(s) && !(wflag && s == winsect) ==> before[s] == view[s]
      requires geo.database <= sect && sect + |d| <= geo.nsects
      requires disk.sectors == Overlay(before, sect, d[..n])
      requires mirrored ==> disk.reliable && MirrorsAgree(geo, disk.sectors)
      modifies `stamps, `exempt, `view, `log
      ensures Logged() && Coherent() && log == old(log) + [view]
      ensures forall x :: 0 <= x < geo.database ==> view[x] == old(view)[x]
      ensures !(sect <= winsect < sect + |d|) ==> Valid() && view == Overlay(old(view), sect, d[..n])
      ensures Past() == old(Past()).(log := log) || Past() == Restamped(old(Past()).(log := log))
    {
      hide Snapshots, MirrorsAgree, Agree, Overlay;
      var v := Overlay(view, sect, d[..n]);
      if wflag {
        v := v[winsect := view[winsect]];
      }
      LogEnds();
      SnapshotView(geo, Past(), v);
      view, log := v, log + [v];
      if !wflag {
        MakePresent();
      }
    }

    /** `sync`: flush the window and, when allocation changed, rewrite the FSInfo sector. */
    method Sync() returns (res: Fresult)
      requires Valid()
      modifies `winsect, `wflag, `stamps, `exempt, `view, `log, `fsiFlag, win, disk
      ensures Valid()
      ensures disk.reliable ==> res == FrOk
      ensures res == FrOk ==> !wflag
      ensures view == old(view) ||
              (geo.fsType == Fat32 && geo.FsInfoFits() &&
               view == old(view)[geo.fsiSector := FsInfo(freeClust, lastClust)])
      ensures disk.reliable && geo.fsType == Fat32 && old(fsiFlag) ==>
                view[geo.fsiSector] == FsInfo(freeClust, lastClust)
      ensures !(geo.fsType == Fat32 && old(fsiFlag)) ==> view == old(view)
      ensures fsiFlag == (old(fsiFlag) && !(res == FrOk && geo.fsType == Fat32))
      ensures WentOn(geo, old(Past()), Past(), {})
    {
      hide Snapshots, FsInfo, Logged, SafeRun, AheadIn;
      ghost var h := Past();
      LogEnds();
      res := MoveWindow(0);
      ghost var h1 := Past();
      WentOnQuietly(geo, h, h1, {});
      if res == FrOk && geo.fsType == Fat32 && fsiFlag {
        WriteFsInfo();
        WentOnTrans(geo, h, h1, Past(), {}, {}, {});
      }
    }

    /** `sync`: the window buffer is borrowed for the FSInfo sector; a failed write is ignored. */
    method WriteFsInfo()
      requires Valid() && !wflag && geo.fsType == Fat32 && geo.FsInfoFits()
      modifies `winsect, `stamps, `exempt, `view, `log, `fsiFlag, win, disk
      ensures Valid() && WentOn(geo, old(Past()), Past(), {})
      ensures view == old(view) ||
              (geo.fsType == Fat32 && geo.FsInfoFits() &&
               view == old(view)[geo.fsiSector := FsInfo(freeClust, lastClust)])
      ensures disk.reliable ==> view[geo.fsiSector] == FsInfo(freeClust, lastClust)
      ensures !fsiFlag
    {
      hide Snapshots, Logged, AheadIn, SafeRun, FsInfo, MirrorsAgree, Agree, LinksSafe, Coherent;
      var info := FsInfo(freeClust, lastClust);
      BorrowWindow(info);
      CleanShows();
      ghost var before, images, l0 := disk.sectors, disk.images, log;
      LogEnds();
      LastMoment();
      var ok := disk.Write(geo.fsiSector, win[..]);
      fsiFlag := false;
      LogFsInfo(ok, before, images, info);
      DataStores(geo, l0, log);
    }

    /** With nothing dirty the medium shows the logical disk. */
    lemma CleanShows()
      requires Valid() && !wflag
      ensures Present() && Agree(geo, {}, disk.sectors, view)
      ensures mirrored ==> disk.reliable && MirrorsAgree(geo, disk.sectors)
    {
      hide Snapshots, MirrorsAgree, Logged;
    }

    /** `sync`: the window buffer takes the new FSInfo sector and stands for no sector. */
    method BorrowWindow(info: Sector)
      requires Valid() && !wflag
      modifies `winsect, win
      ensures Valid() && winsect == 0 && win[..] == info
    {
      hide Snapshots, MirrorsAgree, Agree;
      winsect := 0;
      forall i | 0 <= i < SECTOR_SIZE {
        win[i] := info[i];
      }
    }

    /** `sync`: account for the FSInfo write. */
    ghost method LogFsInfo(ok: bool, before: View, images: seq<View>, info: Sector)
      requires geo.WellFormed() && geo.Fits(view) && geo.Fits(before) && !wflag && winsect == 0
      requires geo.fsType == Fat32 && geo.FsInfoFits() && InfoKnown() && win.Length == SECTOR_SIZE && Present()
      requires Snapshots(geo, Past().(images := images)) && disk.images == images + [disk.sectors]
      requires log[|log| - 1] == view && Agree(geo, {}, before, view)
      requires mirrored ==> disk.reliable && MirrorsAgree(geo, before)
      requires disk.sectors == if ok then before[geo.fsiSector := info] else before
      modifies `stamps, `exempt, `view, `log
      ensures Valid() && view == if ok then old(view)[geo.fsiSector := info] else old(view)
      ensures log == if ok then old(log) + [view] else old(log)
      ensures Later(old(Past()).(images := images), Past(), {})
    {
      hide Snapshots, MirrorsAgree, Agree, Coherent, Logged;
      if ok {
        ghost var v := view[geo.fsiSector := info];
        AgreeBoth(geo, before, view, geo.fsiSector, info);
        SnapshotView(geo, Past().(images := images), v);
        view, log := v, log + [v];
        if mirrored {
          MirrorsElsewhere(geo, before, geo.fsiSector, info);
        }
      }
      Stamp(images, |log| - 1, {});
      CoherentNow();
    }

    /** A medium that shows the logical disk goes with a clean window. */
    lemma CoherentNow()
      requires geo.WellFormed() && !wflag && Agree(geo, {}, disk.sectors, view)
      requires mirrored ==> disk.reliable && MirrorsAgree(geo, disk.sectors)
      ensures Coherent()
    {
      hide MirrorsAgree;
    }

    /** `clust2sect`: the first sector of a cluster, 0 for a number out of range (unsigned wrap). */
    function Clust2Sect(clst: nat): (s: nat)
      requires geo.WellFormed() && clst < TWO32
      ensures s == if geo.ValidCluster(clst) then geo.ClusterBase(clst) else 0
      ensures s == 0 || geo.database <= s
    {
      var c := (clst + TWO32 - 2) % TWO32;
      if c >= geo.maxClust - 2 then 0
      else
        Product(c, geo.csize) + geo.database
    }

    /** Cluster 2 is at the start of the data area, each further one behind its predecessor, and no other. */
    lemma ClusterStarts(clst: nat)
      requires geo.WellFormed() && clst + 1 < TWO32
      ensures Clust2Sect(2) == if 2 < geo.maxClust then geo.database else 0
      ensures 2 <= clst && clst + 1 < geo.maxClust ==> Clust2Sect(clst + 1) == Clust2Sect(clst) + geo.csize
      ensures clst < 2 || geo.maxClust <= clst ==> Clust2Sect(clst) == 0
    {
      if geo.ValidCluster(clst) {
        ClusterLayout(geo, clst);
      }
    }

    /** The cluster table as readers of the volume see it. */
    ghost function Tab(): C.Table
      requires geo.WellFormed() && geo.Fits(view)
      reads `view
    {
      Table(geo, view)
    }

    /** `get_cluster`: the entry of `clst`, 1 when there is none, or `DISK_ERROR`. */
    method GetCluster(clst: nat) returns (r: nat)
      requires Valid()
      modifies `winsect, `wflag, `stamps, `exempt, win, disk
      ensures Valid()
      ensures !old(wflag) ==> !wflag
      ensures disk.reliable ==> r != DISK_ERROR
      ensures old(winsect) != 0 ==> winsect != 0
      ensures !geo.ValidCluster(clst) ==> r == 1
      ensures geo.ValidCluster(clst) && r != DISK_ERROR ==> r == Tab()[clst] && geo.InFat(winsect)
      ensures Later(old(Past()), Past(), {})
    {
      hide Coherent, Logged, Current, AheadIn, Table, LdWord, LdDword;
      if !geo.ValidCluster(clst) {
        LaterNow();
        return 1;
      }
      SpotInFat(geo, clst);
      match geo.fsType
      case Fat12 =>
        r := GetCluster12(clst);
      case Fat16 =>
        var res := MoveWindow(geo.fatbase + clst / (SECTOR_SIZE / 2));
        if res != FrOk {
          return DISK_ERROR;
        }
        Spot16(geo, view, clst);
        r := LdWord(win[..], clst % 0x1_0000 * 2 % SECTOR_SIZE);
      case Fat32 =>
        var res := MoveWindow(geo.fatbase + clst / (SECTOR_SIZE / 4));
        if res != FrOk {
          return DISK_ERROR;
        }
        Spot32(geo, view, clst);
        r := LdDword(win[..], clst % 0x1_0000 * 4 % SECTOR_SIZE) % 0x1000_0000;
    }

    /** `get_cluster`, FAT12: the two bytes of an entry may lie in two sectors. */
    method GetCluster12(clst: nat) returns (r: nat)
      requires Valid() && geo.ValidCluster(clst) && geo.fsType == Fat12
      modifies `winsect, `wflag, `stamps, `exempt, win, disk
      ensures Valid()
      ensures !old(wflag) ==> !wflag
      ensures disk.reliable ==> r != DISK_ERROR
      ensures old(winsect) != 0 ==> winsect != 0
      ensures r != DISK_ERROR ==> r == Tab()[clst] && geo.InFat(winsect)
      ensures Later(old(Past()), Past(), {})
    {
      hide Coherent, Logged, Current, AheadIn, Table, Get12;
      SpotInFat(geo, clst);
      ghost var h := Past();
      var bc := clst % 0x1_0000 * 3 / 2;
      var res, lo := ShowFatByte(bc);
      if res != FrOk {
        return DISK_ERROR;
      }
      ghost var h1 := Past();
      bc := bc + 1;
      var hi;
      res, hi := ShowFatByte(bc);
      LaterTrans(h, h1, Past(), {}, {}, {});
      if res != FrOk {
        return DISK_ERROR;
      }
      Spot12(geo, view, clst);
      r := Get12(clst % 2 == 1, lo, hi);
    }

    /** Nothing has happened yet. */
    lemma LaterNow()
      requires Logged()
      ensures Later(Past(), Past(), {})
    {
      hide Agree;
      LaterRefl(Past(), {});
    }

    /**
     * `put_cluster`: set the entry of `clst`. The window is marked dirty even when the sector could
     * not be loaded; that is harmless unless the window was still empty.
     */
    method PutCluster(clst: nat, val: nat) returns (res: Fresult)
      requires Valid()
      modifies `winsect, `wflag, `stamps, `exempt, `view, `log, win, disk
      ensures old(winsect) != 0 || res != FrDiskErr ==> Valid()
      ensures old(winsect) != 0 ==> winsect != 0
      ensures res == FrOk || res == FrDiskErr || (res == FrIntErr && view == old(view))
      ensures res == FrIntErr <==> !geo.ValidCluster(clst)
      ensures disk.reliable && geo.ValidCluster(clst) ==> res == FrOk
      ensures OnlyFat(geo, old(view), view)
      ensures res == FrOk ==> Tab() == old(Tab())[clst := val % Radix(geo.fsType)]
      ensures OnlyFatSince(geo, old(view), log, |old(log)|)
      ensures old(log) <= log
      ensures geo.fsType != Fat12 ==> log == if res == FrOk then old(log) + [view] else old(log)
      ensures Later(old(Past()), Past(), {})
    {
      hide Coherent, Logged, Current, AheadIn, Table, Patch, Agree, Hi12, Lo12, StWord, StDword;
      if !geo.ValidCluster(clst) {
        LaterNow();
        return FrIntErr;
      }
      SpotInFat(geo, clst);
      match geo.fsType {
        case Fat12 =>
          res := PutCluster12(clst, val);
        case Fat16 =>
          Store16(geo, view, clst, val);
          res := StoreAt(geo.fatbase + clst / (SECTOR_SIZE / 2), clst % 0x1_0000 * 2 % SECTOR_SIZE, StWord(val));
        case Fat32 =>
          Store32(geo, view, clst, val);
          res := StoreAt(geo.fatbase + clst / (SECTOR_SIZE / 4), clst % 0x1_0000 * 4 % SECTOR_SIZE, StDword(val));
      }
      MarkDirty();
    }

    /** `put_cluster`, FAT16 and FAT32: one store. */
    method StoreAt(sector: nat, o: nat, d: seq<byte>) returns (res: Fresult)
      requires Valid() && geo.InFat(sector) && o + |d| <= SECTOR_SIZE
      modifies `winsect, `wflag, `stamps, `exempt, `view, `log, win, disk
      ensures Valid()
      ensures old(winsect) != 0 || res == FrOk ==> winsect != 0
      ensures res == FrOk || res == FrDiskErr
      ensures disk.reliable ==> res == FrOk
      ensures if res == FrOk then
                view == old(view)[sector := Patch(old(view)[sector], o, d)] && log == old(log) + [view]
              else view == old(view) && log == old(log)
      ensures Later(old(Past()), Past(), {})
    {
      hide Coherent, Logged, Current, AheadIn, Patch;
      ghost var h := Past();
      res := MoveWindow(sector);
      if res == FrOk {
        ghost var h1 := Past();
        Poke(o, d);
        LaterTrans(h, h1, Past(), {}, {}, {});
      }
    }

    /** `put_cluster`, FAT12: the entry may straddle two sectors. */
    method PutCluster12(clst: nat, val: nat) returns (res: Fresult)
      requires Valid() && geo.ValidCluster(clst) && geo.fsType == Fat12
      modifies `winsect, `wflag, `stamps, `exempt, `view, `log, win, disk
      ensures Valid()
      ensures old(winsect) != 0 || res == FrOk ==> winsect != 0
      ensures res == FrOk || res == FrDiskErr
      ensures disk.reliable ==> res == FrOk
      ensures OnlyFat(geo, old(view), view)
      ensures res == FrOk ==> Tab() == old(Tab())[clst := val % Radix(geo.fsType)]
      ensures OnlyFatSince(geo, old(view), log, |old(log)|)
      ensures old(log) <= log
      ensures Later(old(Past()), Past(), {})
    {
      hide Coherent, Logged, Current, AheadIn, Table, Agree, Hi12, Lo12, StoreByte, OnlyFat, Offset12;
      SpotInFat(geo, clst);
      Store12(geo, view, clst, val);
      OnlyFatRefl(geo, view);
      ghost var h := Past();
      var bc := clst % 0x1_0000 * 3 / 2;
      res := PutHalf12(bc, false, clst % 2 == 1, val, old(view));
      if res != FrOk {
        return;
      }
      ghost var h1 := Past();
      bc := bc + 1;
      res := PutHalf12(bc, true, clst % 2 == 1, val, old(view));
      LaterTrans(h, h1, Past(), {}, {}, {});
    }

    /** `put_cluster`, FAT12: the first or the second byte of an entry. */
    method PutHalf12(o: nat, second: bool, odd: bool, val: nat, ghost v0: View) returns (res: Fresult)
      requires Valid() && geo.InFat(geo.fatbase + o / SECTOR_SIZE) && OnlyFat(geo, v0, view)
      modifies `winsect, `wflag, `stamps, `exempt, `view, `log, win, disk
      ensures Valid()
      ensures old(winsect) != 0 || res == FrOk ==> winsect != 0
      ensures res == FrOk || res == FrDiskErr
      ensures disk.reliable ==> res == FrOk
      ensures OnlyFat(geo, v0, view) && Later(old(Past()), Past(), {})
      ensures var x := old(view)[geo.fatbase + o / SECTOR_SIZE][o % SECTOR_SIZE];
              if res == FrOk then
                && view == StoreByte(geo, old(view), o, if second then Hi12(odd, x, val) else Lo12(odd, x, val))
                && log == old(log) + [view]
              else view == old(view) && log == old(log)
    {
      hide Coherent, Logged, Current, AheadIn, Hi12, Lo12, StoreByte, OnlyFat;
      var x;
      res, x := ShowFatByte(o);
      if res == FrOk {
        ghost var h := Past();
        PokeFatByte(o, if second then Hi12(odd, x, val) else Lo12(odd, x, val));
        LaterTrans(old(Past()), h, Past(), {}, {}, {});
      }
    }

    /** Make byte `o` of the cluster table appear in the window. */
    method ShowFatByte(o: nat) returns (res: Fresult, x: byte)
      requires Valid() && geo.InFat(geo.fatbase + o / SECTOR_SIZE)
      modifies `winsect, `wflag, `stamps, `exempt, win, disk
      ensures Valid()
      ensures res == FrOk || res == FrDiskErr
      ensures disk.reliable ==> res == FrOk
      ensures old(winsect) != 0 ==> winsect != 0
      ensures res == FrOk ==>
                && winsect == geo.fatbase + o / SECTOR_SIZE
                && x == view[geo.fatbase + o / SECTOR_SIZE][o % SECTOR_SIZE]
      ensures !old(wflag) ==> !wflag
      ensures Later(old(Past()), Past(), {})
    {
      hide Coherent, Logged, Current, AheadIn;
      res := MoveWindow(geo.fatbase + o / SECTOR_SIZE);
      x := if res == FrOk then win[o % SECTOR_SIZE] else 0;
    }

    /** Store byte `o` of the cluster table, which the window shows. */
    method PokeFatByte(o: nat, x: byte)
      requires Valid() && winsect == geo.fatbase + o / SECTOR_SIZE && geo.InFat(winsect)
      modifies `wflag, `view, `log, win
      ensures Valid()
      ensures view == StoreByte(geo, old(view), o, x) && log == old(log) + [view]
      ensures forall v: View :: OnlyFat(geo, v, old(view)) ==> OnlyFat(geo, v, view)
      ensures Later(old(Past()), Past(), {})
    {
      hide Coherent, Logged, Current, AheadIn, Patch;
      Poke(o % SECTOR_SIZE, [x]);
    }

    method MarkDirty()
      requires Valid()
      modifies `wflag
      ensures wflag
      ensures winsect != 0 ==> Valid()
    {
      hide Snapshots, Agree;
      wflag := true;
    }

    /** A known count of free clusters is the number of zero entries. */
    ghost predicate CountOk()
      requires geo.WellFormed() && geo.Fits(view)
      reads `view, `freeClust
    {
      freeClust == UNKNOWN || freeClust == C.FreeCount(Tab())
    }

    /** A changed count of free clusters is marked for the FSInfo sector; an unknown one stays so. */
    twostate predicate CountNoted()
      reads `freeClust, `fsiFlag
    {
      && (old(fsiFlag) ==> fsiFlag)
      && (freeClust != old(freeClust) ==> fsiFlag)
      && (old(freeClust) == UNKNOWN ==> freeClust == UNKNOWN && fsiFlag == old(fsiFlag))
    }

    /** `remove_chain`: the loop. */
    method FreeAll(clst: nat) returns (res: Fresult)
      requires Valid()
      modifies `winsect, `wflag, `stamps, `exempt, `view, `log, `freeClust, `fsiFlag, win, disk
      ensures Valid()
      ensures OnlyFat(geo, old(view), view)
      ensures !geo.ValidCluster(clst) ==> res == FrIntErr && view == old(view)
      ensures disk.reliable ==> res != FrDiskErr
      ensures res != FrDiskErr && geo.ValidCluster(clst) ==>
                && Tab() == C.Freed(old(Tab()), clst).0
                && res == if C.Freed(old(Tab()), clst).1 then FrOk else FrIntErr
      ensures disk.reliable && old(CountOk()) ==> CountOk()
      ensures CountNoted()
      ensures OnlyFatSince(geo, old(view), log, |old(log)|) && Later(old(Past()), Past(), {})
      ensures geo.fsType != Fat12 && SafeToFree(old(Tab()), clst) ==> LinksSafe(geo, log, |old(log)|)
    {
      hide Coherent, Logged, Current, AheadIn, Table, C.Freed;
      hide C.FreeCount, SafeToFree, LinksSafe, OnlyFatSince, OnlyFat;
      LaterNow();
      if !geo.ValidCluster(clst) {
        OnlyFatRefl(geo, view);
        OnlyFatSinceNone(geo, view, log);
        LinksSafeNone(geo, log);
        return FrIntErr;
      }
      res := FrOk;
      var c := clst;
      OnlyFatRefl(geo, view);
      OnlyFatSinceNone(geo, view, log);
      LinksSafeNone(geo, log);
      while c < geo.maxClust
        invariant res == FrOk && Valid() && 2 <= c && OnlyFat(geo, old(view), view)
        invariant C.Freed(old(Tab()), clst) == C.Freed(Tab(), c)
        invariant disk.reliable && old(CountOk()) ==> CountOk()
        invariant CountNoted()
        invariant OnlyFatSince(geo, old(view), log, |old(log)|) && Later(old(Past()), Past(), {})
        invariant geo.fsType != Fat12 && SafeToFree(old(Tab()), clst) ==>
                    LinksSafe(geo, log, |old(log)|) && SafeToFree(Tab(), c)
        decreases geo.maxClust - C.FreeCount(Tab())
      {
        C.FreedStep(Tab(), c);
        ghost var before, now, h := log, view, Past();
        var nxt;
        res, nxt := FreeOne(c, |old(log)|);
        OnlyFatSinceTrans(geo, old(view), now, before, log, |old(log)|);
        OnlyFatTrans(geo, old(view), now, view);
        LaterTrans(old(Past()), h, Past(), {}, {}, {});
        if res != FrOk || nxt == 0 {
          return;
        }
        c := nxt;
      }
      C.FreedStep(Tab(), c);
    }

    /** `remove_chain`: free clusters from `clst` on, whatever the table holds. */
    method RemoveChain(clst: nat) returns (res: Fresult)
      requires Valid()
      modifies `winsect, `wflag, `stamps, `exempt, `view, `log, `freeClust, `fsiFlag, win, disk
      ensures Valid()
      ensures OnlyFat(geo, old(view), view)
      ensures !geo.ValidCluster(clst) ==> res == FrIntErr && view == old(view)
      ensures disk.reliable ==> res != FrDiskErr
      ensures res != FrDiskErr && geo.ValidCluster(clst) ==>
                && Tab() == C.Freed(old(Tab()), clst).0
                && res == if C.Freed(old(Tab()), clst).1 then FrOk else FrIntErr
      ensures disk.reliable && old(CountOk()) ==> CountOk()
      ensures CountNoted()
      ensures OnlyFatSince(geo, old(view), log, |old(log)|) && Later(old(Past()), Past(), {})
      ensures geo.fsType != Fat12 && SafeToFree(old(Tab()), clst) ==>
                && SafeRun(geo, old(log), log)
                && (old(Secure()) ==> Secure() && ImagesSafe(geo, disk.images, |old(disk.images)| - 1))
    {
      hide Coherent, Logged, Current, AheadIn, Table, C.Freed, C.FreeCount, SafeToFree, LinksSafe, OnlyFatSince;
      hide OnlyFat, ImagesSafe, Snapshots;
      ghost var h := Past();
      LogEnds();
      res := FreeAll(clst);
      LogEnds();
      if geo.fsType != Fat12 && SafeToFree(Table(geo, old(view)), clst) {
        SafeRunFrom(geo, h.log, log);
        if SecurePast(geo, h) {
          PowerLossKeepsLinks(geo, h, Past());
        }
      }
    }

    /** `remove_chain`: the store that frees a cluster. */
    method ClearEntry(c: nat, ghost from: nat) returns (res: Fresult)
      requires Valid() && geo.ValidCluster(c) && winsect != 0
      modifies `winsect, `wflag, `stamps, `exempt, `view, `log, win, disk
      ensures Valid()
      ensures OnlyFat(geo, old(view), view)
      ensures OnlyFatSince(geo, old(view), log, |old(log)|) && Later(old(Past()), Past(), {})
      ensures res == FrOk || res == FrDiskErr
      ensures disk.reliable ==> res == FrOk
      ensures res == FrOk ==> Tab() == old(Tab())[c := 0]
      ensures (geo.fsType != Fat12 && old(LinksSafe(geo, log, from)) &&
               C.NoDangling(old(Tab())[c := 0])) ==> LinksSafe(geo, log, from)
    {
      hide Valid, Shaken, Later, Table, LinksSafe, OnlyFat, OnlyFatSince, C.NoDangling;
      Standing();
      ghost var before := log;
      res := PutCluster(c, 0);
      Standing();
      if res == FrOk && LinksSafe(geo, before, from) && geo.fsType != Fat12 && C.NoDangling(Tab()) {
        LinksSafeMore(geo, before, from, view);
      }
    }

    /** One turn of `remove_chain`; `nxt` is 0 when the chain runs into a free cluster. */
    method FreeOne(c: nat, ghost from: nat) returns (res: Fresult, nxt: nat)
      requires Valid() && geo.ValidCluster(c)
      modifies `winsect, `wflag, `stamps, `exempt, `view, `log, `freeClust, `fsiFlag, win, disk
      ensures Valid()
      ensures OnlyFat(geo, old(view), view)
      ensures OnlyFatSince(geo, old(view), log, |old(log)|) && Later(old(Past()), Past(), {})
      ensures disk.reliable && old(CountOk()) ==> CountOk()
      ensures CountNoted()
      ensures disk.reliable ==> res != FrDiskErr
      ensures res != FrDiskErr ==> res == if old(Tab())[c] == 1 then FrIntErr else FrOk
      ensures res == FrOk ==> nxt == old(Tab())[c] != 1
      ensures res == FrOk && nxt != 0 ==> Tab() == old(Tab())[c := 0]
      ensures res != FrDiskErr && old(Tab())[c] < 2 ==> Tab() == old(Tab())
      ensures (geo.fsType != Fat12 && old(LinksSafe(geo, log, from)) &&
               SafeToFree(old(Tab()), c)) ==>
                LinksSafe(geo, log, from) && (res == FrOk && nxt != 0 ==> SafeToFree(Tab(), nxt))
    {
      hide Coherent, Logged, Current, Snapshots, Table, C.FreeCount, SafeToFree, LinksSafe, OnlyFat, OnlyFatSince;
      hide C.NoDangling, Later;
      ghost var h0 := Past();
      OnlyFatRefl(geo, view);
      OnlyFatSinceNone(geo, view, log);
      C.FreedStep(Tab(), c);
      nxt := GetCluster(c);
      if nxt == 0 {
        return FrOk, nxt;
      }
      if nxt == 1 {
        return FrIntErr, nxt;
      }
      if nxt == DISK_ERROR {
        return FrDiskErr, nxt;
      }
      FreeSafely(geo, view, c);
      ghost var h1 := Past();
      res := ClearEntry(c, from);
      LaterTrans(h0, h1, Past(), {}, {}, {});
      if res != FrOk {
        return;
      }
      if freeClust != UNKNOWN {
        freeClust := (freeClust + 1) % TWO32;
        fsiFlag := true;
      }
    }

    /** The end mark as the table stores it: 0x0FFFFFFF cut to the width of an entry. */
    function EndMark(): (m: nat)
      requires geo.WellFormed()
      ensures m == 0x0FFF_FFFF % Radix(geo.fsType)
      ensures geo.maxClust <= m && m + 1 == Radix(geo.fsType)
    {
      Radix(geo.fsType) - 1
    }

    /** `create_chain`: the three ways through it. */
    method Allocate(clst: nat) returns (r: nat)
      requires Valid()
      modifies `winsect, `wflag, `stamps, `exempt, `view, `log, `freeClust, `fsiFlag, `lastClust, win, disk
      ensures Valid()
      ensures OnlyFat(geo, old(view), view)
      ensures disk.reliable ==>
                (r, Tab(), lastClust) == C.Create(old(Tab()), old(lastClust), clst, EndMark())
      ensures r != DISK_ERROR ==>
                || (r, Tab(), lastClust) == C.Create(old(Tab()), old(lastClust), clst, EndMark())
                || (!disk.reliable && geo.ValidCluster(clst) &&
                    (r, Tab(), lastClust) == C.HangBehind(old(Tab()), old(lastClust), clst, EndMark()))
      ensures disk.reliable && old(CountOk()) ==> CountOk()
      ensures CountNoted()
      ensures disk.reliable && old(freeClust) != UNKNOWN && Tab() != old(Tab()) ==>
                freeClust == (old(freeClust) + TWO32 - 1) % TWO32
      ensures disk.reliable && Tab() == old(Tab()) ==> freeClust == old(freeClust) && fsiFlag == old(fsiFlag)
      ensures disk.reliable && Tab() == old(Tab()) && !old(wflag) ==> !wflag
      ensures r < 2 ==> view == old(view)
      ensures r < 2 || r == DISK_ERROR || geo.ValidCluster(r)
      ensures Later(old(Past()), Past(), {})
      ensures geo.fsType != Fat12 && C.NoDangling(old(Tab())) ==> LinksSafe(geo, log, |old(log)|)
    {
      hide Coherent, Logged, Current, AheadIn, Table, C.FreeCount, C.NoDangling, C.Search, C.Linked, OnlyFat;
      OnlyFatRefl(geo, view);
      LaterNow();
      ghost var h0 := Past();
      var mcl := geo.maxClust;
      var scl;
      if clst == 0 {
        scl := lastClust;
        if scl == 0 || scl >= mcl {
          scl := 1;
        }
      } else {
        var cs := GetCluster(clst);
        if cs < 2 {
          return 1;
        }
        if cs < mcl {
          return cs;
        }
        scl := clst;
      }
      ghost var h1 := Past();
      var ncl := FindFree(scl);
      LaterTrans(h0, h1, Past(), {}, {}, {});
      if ncl < 2 || ncl == DISK_ERROR {
        return ncl;
      }
      ghost var h2 := Past();
      r := LinkFree(clst, ncl);
      LaterTrans(h0, h2, Past(), {}, {}, {});
    }

    /**
     * `create_chain`: follow the link of `clst`, or stretch its chain (0: start a new chain). A failure
     * to look up the link of `clst` is taken for the end of the chain.
     */
    method CreateChain(clst: nat) returns (r: nat)
      requires Valid()
      modifies `winsect, `wflag, `stamps, `exempt, `view, `log, `freeClust, `fsiFlag, `lastClust, win, disk
      ensures Valid()
      ensures OnlyFat(geo, old(view), view)
      ensures disk.reliable ==>
                (r, Tab(), lastClust) == C.Create(old(Tab()), old(lastClust), clst, EndMark())
      ensures r != DISK_ERROR ==>
                || (r, Tab(), lastClust) == C.Create(old(Tab()), old(lastClust), clst, EndMark())
                || (!disk.reliable && geo.ValidCluster(clst) &&
                    (r, Tab(), lastClust) == C.HangBehind(old(Tab()), old(lastClust), clst, EndMark()))
      ensures disk.reliable && r >= 2 && clst == 0 ==>
                C.NextFree(old(Tab()), if 1 <= old(lastClust) < geo.maxClust then old(lastClust) else 1, r)
      ensures disk.reliable && r >= 2 && geo.ValidCluster(clst) && old(Tab())[clst] >= geo.maxClust ==>
                C.NextFree(old(Tab()), clst, r)
      ensures disk.reliable && geo.ValidCluster(clst) && 2 <= old(Tab())[clst] < geo.maxClust ==>
                r == old(Tab())[clst] && Tab() == old(Tab()) && lastClust == old(lastClust)
      ensures disk.reliable && old(CountOk()) ==> CountOk()
      ensures CountNoted()
      ensures disk.reliable && old(freeClust) != UNKNOWN && Tab() != old(Tab()) ==>
                freeClust == (old(freeClust) + TWO32 - 1) % TWO32
      ensures disk.reliable && Tab() == old(Tab()) ==> freeClust == old(freeClust) && fsiFlag == old(fsiFlag)
      ensures disk.reliable && Tab() == old(Tab()) && !old(wflag) ==> !wflag
      ensures r < 2 ==> view == old(view)
      ensures r < 2 || r == DISK_ERROR || geo.ValidCluster(r)
      ensures Later(old(Past()), Past(), {})
      ensures WentOn(geo, old(Past()), Past(), {})
      ensures geo.fsType != Fat12 && old(Secure()) ==>
                Secure() && ImagesSafe(geo, disk.images, |old(disk.images)| - 1)
    {
      hide Coherent, Logged, Current, AheadIn, Table, C.FreeCount, C.NoDangling, C.Create, OnlyFat, ImagesSafe;
      hide Snapshots, SafeRun, C.NextFree, EndMark;
      ghost var h := Past();
      LogEnds();
      C.CreateMeans(Tab(), lastClust, clst, EndMark());
      r := Allocate(clst);
      LogEnds();
      if geo.fsType != Fat12 {
        SafeRunIf(geo, h.log, log);
        if SecurePast(geo, h) {
          PowerLossKeepsLinks(geo, h, Past());
        }
      }
    }

    /** `create_chain`: the search loop. */
    method FindFree(scl: nat) returns (ncl: nat)
      requires Valid() && 1 <= scl < geo.maxClust
      modifies `winsect, `wflag, `stamps, `exempt, win, disk
      ensures Valid()
      ensures !old(wflag) ==> !wflag
      ensures ncl < geo.maxClust || ncl == DISK_ERROR
      ensures disk.reliable ==> ncl != DISK_ERROR
      ensures ncl != DISK_ERROR ==> ncl == C.Search(Tab(), scl, 1)
      ensures 2 <= ncl < geo.maxClust ==> winsect != 0 && Tab()[ncl] == 0
      ensures 2 <= ncl < geo.maxClust ==> C.NextFree(Tab(), scl, ncl)
      ensures Later(old(Past()), Past(), {})
    {
      hide Coherent, Logged, Current, Later, Table, C.After, C.Search, C.NextFree;
      C.SearchTakes(Tab(), scl);
      LaterNow();
      var mcl := geo.maxClust;
      ncl := scl;
      ghost var k := 0;
      while true
        invariant Valid() && 0 <= k < mcl - 1
        invariant !old(wflag) ==> !wflag
        invariant k == mcl - 2 ==> scl == 1
        invariant ncl == if k == 0 then scl else C.After(scl, k, mcl)
        invariant C.Search(Tab(), scl, 1) == C.Search(Tab(), scl, k + 1)
        invariant Later(old(Past()), Past(), {})
        decreases mcl - k
      {
        C.SearchTurn(Tab(), scl, k, ncl);
        ncl := ncl + 1;
        if ncl >= mcl {
          ncl := 2;
          if ncl > scl {
            return 0;
          }
        }
        k := k + 1;
        ghost var h := Past();
        var cs := GetCluster(ncl);
        LaterTrans(old(Past()), h, Past(), {}, {}, {});
        if cs == 0 {
          return;
        }
        if cs == DISK_ERROR || cs == 1 {
          return cs;
        }
        if ncl == scl {
          return 0;
        }
      }
    }

    /** `create_chain`: mark the new cluster, link it, and keep the allocation records. */
    method LinkFree(clst: nat, ncl: nat) returns (r: nat)
      requires Valid() && winsect != 0 && geo.ValidCluster(ncl) && Tab()[ncl] == 0
      requires clst == 0 || geo.ValidCluster(clst)
      modifies `winsect, `wflag, `stamps, `exempt, `view, `log, `freeClust, `fsiFlag, `lastClust, win, disk
      ensures Valid()
      ensures OnlyFat(geo, old(view), view)
      ensures r == ncl || r == DISK_ERROR
      ensures disk.reliable ==> r == ncl
      ensures r == ncl ==> Tab() == C.Linked(old(Tab()), clst, ncl, EndMark()) && lastClust == ncl
      ensures disk.reliable && old(CountOk()) && (clst == 0 || old(Tab())[clst] != 0) ==> CountOk()
      ensures CountNoted()
      ensures disk.reliable && old(freeClust) != UNKNOWN ==>
                freeClust == (old(freeClust) + TWO32 - 1) % TWO32
      ensures disk.reliable ==> Tab() != old(Tab())
      ensures Later(old(Past()), Past(), {})
      ensures geo.fsType != Fat12 && C.NoDangling(old(Tab())) ==> LinksSafe(geo, log, |old(log)|)
    {
      hide Coherent, Logged, Current, AheadIn, Table, C.FreeCount, C.NoDangling, C.Linked, LinksSafe;
      if clst == 0 || Tab()[clst] != 0 {
        C.LinkedCount(Tab(), clst, ncl, EndMark());
      }
      C.LinkedDiffers(Tab(), clst, ncl, EndMark());
      var ok := StoreLinks(clst, ncl);
      if !ok {
        return DISK_ERROR;
      }
      lastClust := ncl;
      if freeClust != UNKNOWN {
        freeClust := (freeClust + TWO32 - 1) % TWO32;
        fsiFlag := true;
      }
      return ncl;
    }

    /** `create_chain`: the end mark goes in first, the link to it second. */
    method StoreLinks(clst: nat, ncl: nat) returns (ok: bool)
      requires Valid() && winsect != 0 && geo.ValidCluster(ncl) && Tab()[ncl] == 0
      requires clst == 0 || geo.ValidCluster(clst)
      modifies `winsect, `wflag, `stamps, `exempt, `view, `log, win, disk
      ensures Valid()
      ensures OnlyFat(geo, old(view), view)
      ensures disk.reliable ==> ok
      ensures ok ==> Tab() == C.Linked(old(Tab()), clst, ncl, EndMark())
      ensures Later(old(Past()), Past(), {})
      ensures geo.fsType != Fat12 && C.NoDangling(old(Tab())) ==> LinksSafe(geo, log, |old(log)|)
    {
      hide Coherent, Logged, Current, AheadIn, Table, C.NoDangling, LinksSafe, OnlyFat, EndMark, Radix;
      ghost var from, safe := |log|, C.NoDangling(Tab());
      if safe {
        C.LinkSafe(Tab(), clst, ncl, EndMark());
      }
      LinksSafeNone(geo, log);
      ghost var l0, h0 := log, Past();
      var res := PutCluster(ncl, 0x0FFF_FFFF);
      if res != FrOk {
        return false;
      }
      ghost var h1 := Past();
      if safe && geo.fsType != Fat12 {
        LinksSafeMore(geo, l0, from, view);
      }
      if clst != 0 {
        res := LinkBehind(clst, ncl, from, old(view));
        LaterTrans(h0, h1, Past(), {}, {}, {});
      }
      ok := res == FrOk;
    }

    /** `create_chain`: link the new cluster behind the old end of the chain. */
    method LinkBehind(clst: nat, ncl: nat, ghost from: nat, ghost v0: View) returns (res: Fresult)
      requires Valid() && winsect != 0 && geo.ValidCluster(clst) && ncl < geo.maxClust
      requires OnlyFat(geo, v0, view)
      modifies `winsect, `wflag, `stamps, `exempt, `view, `log, win, disk
      ensures Valid()
      ensures OnlyFat(geo, v0, view)
      ensures res == FrOk || res == FrDiskErr
      ensures disk.reliable ==> res == FrOk
      ensures res == FrOk ==> Tab() == old(Tab())[clst := ncl]
      ensures Later(old(Past()), Past(), {})
      ensures (geo.fsType != Fat12 && old(LinksSafe(geo, log, from)) &&
               C.NoDangling(old(Tab())[clst := ncl])) ==> LinksSafe(geo, log, from)
    {
      hide Valid, Shaken, Later, Table, C.NoDangling, LinksSafe;
      Standing();
      ghost var l0 := log;
      res := PutCluster(clst, ncl);
      Standing();
      if res == FrOk && geo.fsType != Fat12 && LinksSafe(geo, l0, from) && C.NoDangling(Tab()) {
        LinksSafeMore(geo, l0, from, view);
      }
    }
  }

  /** Freeing may start at `c`: links are safe, unshared, and none leads to `c`. */
  ghost predicate SafeToFree(t: C.Table, c: nat) {
    C.NoDangling(t) && C.Unshared(t) && (c < |t| ==> C.NotLinkedTo(t, c))
  }

  lemma FreeSafely(g: Geometry, v: View, c: nat)
    requires g.WellFormed() && g.Fits(v) && g.ValidCluster(c) && Table(g, v)[c] >= 2
    ensures var t := Table(g, v);
            SafeToFree(t, c) ==> SafeToFree(t[c := 0], t[c]) && C.NoDangling(t[c := 0])
  {
    if SafeToFree(Table(g, v), c) {
      C.FreeSafe(Table(g, v), c);
    }
  }

  /** Two views that differ at most in FAT copy 1. */
  ghost predicate OnlyFat(g: Geometry, v: View, v': View) {
    g.Fits(v) && g.Fits(v') && forall s :: 0 <= s < |v| && !g.InFat(s) ==> v'[s] == v[s]
  }

  lemma OnlyFatTrans(g: Geometry, v0: View, v1: View, v2: View)
    requires OnlyFat(g, v0, v1) && OnlyFat(g, v1, v2)
    ensures OnlyFat(g, v0, v2)
  {
  }

  /** Every view since index `from` of `log` differs from `v0` at most in FAT copy 1. */
  ghost predicate OnlyFatSince(g: Geometry, v0: View, log: seq<View>, from: nat) {
    forall i :: from <= i < |log| ==> OnlyFat(g, v0, log[i])
  }

  lemma OnlyFatSinceNone(g: Geometry, v0: View, log: seq<View>)
    ensures OnlyFatSince(g, v0, log, |log|)
  {
  }

  lemma OnlyFatSinceTrans(g: Geometry, v0: View, v1: View, log1: seq<View>, log2: seq<View>, from: nat)
    requires from <= |log1| && log1 <= log2 && OnlyFatSince(g, v0, log1, from)
    requires OnlyFat(g, v0, v1) && OnlyFatSince(g, v1, log2, |log1|)
    ensures OnlyFatSince(g, v0, log2, from)
  {
    forall i | from <= i < |log2| ensures OnlyFat(g, v0, log2[i]) {
      if i < |log1| {
        assert log2[i] == log1[i];
      }
    }
  }

  lemma OnlyFatRefl(g: Geometry, v: View)
    requires g.Fits(v)
    ensures OnlyFat(g, v, v)
  {
  }

  /** The FSInfo sector `sync` writes. */
  function FsInfo(freeClust: nat, lastClust: nat): (s: Sector) {
    var a := Patch(Blank(), 510, StWord(0xAA55));
    var b := Patch(a, 0, StDword(0x4161_5252));
    var c := Patch(b, 484, StDword(0x6141_7272));
    var d := Patch(c, 488, StDword(freeClust));
    Patch(d, 492, StDword(lastClust))
  }

  /** What stands where in the FSInfo sector. */
  lemma FsInfoFields(freeClust: nat, lastClust: nat)
    requires freeClust < TWO32 && lastClust < TWO32
    ensures var s := FsInfo(freeClust, lastClust);
            && LdDword(s, 488) == freeClust && LdDword(s, 492) == lastClust
            && LdDword(s, 0) == 0x4161_5252 && LdDword(s, 484) == 0x6141_7272 && LdWord(s, 510) == 0xAA55
            && forall i :: 4 <= i < 484 || 496 <= i < 510 ==> s[i] == 0
  {
    hide StWord, StDword, Patch, LdWord, LdDword;
    var a := Patch(Blank(), 510, StWord(0xAA55));
    var b := Patch(a, 0, StDword(0x4161_5252));
    var c := Patch(b, 484, StDword(0x6141_7272));
    var d := Patch(c, 488, StDword(freeClust));
    var s := Patch(d, 492, StDword(lastClust));
    LoadsFrom(s, 488, StDword(freeClust));
    LoadsFrom(s, 492, StDword(lastClust));
    LoadsFrom(s, 0, StDword(0x4161_5252));
    LoadsFrom(s, 484, StDword(0x6141_7272));
    LoadsFrom(s, 510, StWord(0xAA55));
  }

  lemma LoadsFrom(s: seq<byte>, o: nat, d: seq<byte>)
    requires o + |d| <= |s| && forall i :: 0 <= i < |d| ==> s[o + i] == d[i]
    ensures |d| == 4 ==> LdDword(s, o) == LdDword(d, 0)
    ensures |d| == 2 ==> LdWord(s, o) == LdWord(d, 0)
  {
    if |d| == 4 {
      assert s[o] == d[0] && s[o + 1] == d[1] && s[o + 2] == d[2] && s[o + 3] == d[3];
    } else if |d| == 2 {
      assert s[o] == d[0] && s[o + 1] == d[1];
    }
  }
}
