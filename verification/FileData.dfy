/** The bytes of a file as a function of a view and a cluster chain, and how stores change them. */
module FileData {
  import opened Bytes
  import opened Layout
  import C = Chains

  ghost predicate Clusters(g: Geometry, s: seq<nat>) {
    forall i :: 0 <= i < |s| ==> g.ValidCluster(s[i])
  }

  /** `lo`, `lo + 1`, ..., `n` numbers in all. */
  ghost function Consecutive(lo: nat, n: nat): (r: seq<nat>)
    ensures |r| == n
    ensures forall i :: 0 <= i < n ==> r[i] == lo + i
  {
    if n == 0 then [] else Consecutive(lo, n - 1) + [lo + n - 1]
  }

  ghost function ClusterSectors(g: Geometry, c: nat): (r: seq<nat>)
    requires g.ValidCluster(c)
    ensures |r| == g.csize
  {
    Consecutive(g.ClusterBase(c), g.csize)
  }

  /** The sectors of a chain in file order. */
  ghost function Sectors(g: Geometry, s: seq<nat>): (r: seq<nat>)
    requires Clusters(g, s)
    ensures |r| == Mul(|s|, g.csize)
  {
    if s == [] then [] else Sectors(g, s[..|s| - 1]) + ClusterSectors(g, s[|s| - 1])
  }

  lemma SectorsAppend(g: Geometry, s: seq<nat>, c: nat)
    requires Clusters(g, s) && g.ValidCluster(c)
    ensures Clusters(g, s + [c])
    ensures Sectors(g, s + [c]) == Sectors(g, s) + ClusterSectors(g, c)
  {
    assert (s + [c])[..|s|] == s;
  }

  /** Sector `r` of the `q`-th cluster is the file's sector `q * csize + r`. */
  lemma {:induction false} SectorAt(g: Geometry, s: seq<nat>, q: nat, r: nat)
    requires Clusters(g, s) && q < |s| && r < g.csize
    ensures Mul(q, g.csize) + r < |Sectors(g, s)|
    ensures g.ValidCluster(s[q])
    ensures Sectors(g, s)[Mul(q, g.csize) + r] == g.ClusterBase(s[q]) + r
    decreases |s|
  {
    MulMonotone(q, |s|, g.csize);
    MulMonotone(q, |s| - 1, g.csize);
    if q < |s| - 1 {
      SectorAt(g, s[..|s| - 1], q, r);
      MulMonotone(q + 1, |s| - 1, g.csize);
    }
  }

  /** Every sector of a chain is sector `r` of some cluster `q` of it. */
  lemma {:induction false} SectorOwner(g: Geometry, s: seq<nat>, j: nat) returns (q: nat, r: nat)
    requires Clusters(g, s) && j < |Sectors(g, s)|
    ensures q < |s| && r < g.csize && j == Mul(q, g.csize) + r
    ensures Sectors(g, s)[j] == g.ClusterBase(s[q]) + r
    decreases |s|
  {
    var k := |s| - 1;
    if j < Mul(k, g.csize) {
      q, r := SectorOwner(g, s[..k], j);
    } else {
      q, r := k, j - Mul(k, g.csize);
    }
  }

  lemma SectorInData(g: Geometry, s: seq<nat>, j: nat)
    requires g.WellFormed() && Clusters(g, s) && j < |Sectors(g, s)|
    ensures g.database <= Sectors(g, s)[j] < g.nsects
    ensures g.Windowed(Sectors(g, s)[j]) && !g.InFat(Sectors(g, s)[j])
  {
    var q, r := SectorOwner(g, s, j);
    ClusterInRange(g, s[q]);
  }

  /** Chains without a common cluster have no common sector. */
  lemma SectorsApart(g: Geometry, s: seq<nat>, u: seq<nat>, i: nat, j: nat)
    requires Clusters(g, s) && Clusters(g, u) && C.Apart(s, u)
    requires i < |Sectors(g, s)| && j < |Sectors(g, u)|
    ensures Sectors(g, s)[i] != Sectors(g, u)[j]
  {
    var p, a := SectorOwner(g, s, i);
    var q, b := SectorOwner(g, u, j);
    ClustersDisjoint(g, s[p], a, u[q], b);
  }

  /** A chain without repetition visits each of its sectors once. */
  lemma SectorsDistinct(g: Geometry, s: seq<nat>, i: nat, j: nat)
    requires Clusters(g, s) && C.Distinct(s)
    requires i < |Sectors(g, s)| && j < |Sectors(g, s)|
    ensures Sectors(g, s)[i] == Sectors(g, s)[j] ==> i == j
  {
    var p, a := SectorOwner(g, s, i);
    var q, b := SectorOwner(g, s, j);
    ClustersDisjoint(g, s[p], a, s[q], b);
  }

  // ----- bytes -----

  ghost predicate InView(v: View, ss: seq<nat>) {
    forall i :: 0 <= i < |ss| ==> ss[i] < |v|
  }

  /** The first `n` bytes stored in the sectors `ss`. */
  ghost function Content(v: View, ss: seq<nat>, n: nat): (b: seq<byte>)
    requires InView(v, ss) && n <= SECTOR_SIZE * |ss|
    ensures |b| == n
  {
    seq(n, i requires 0 <= i < n => v[ss[i / SECTOR_SIZE]][i % SECTOR_SIZE])
  }

  /** The content is the sectors in order, the last one perhaps in part. */
  lemma ContentInOrder(v: View, ss: seq<nat>, n: nat, k: nat)
    requires InView(v, ss) && n <= SECTOR_SIZE * |ss| && SECTOR_SIZE * k < n
    ensures var end := if n < SECTOR_SIZE * (k + 1) then n else SECTOR_SIZE * (k + 1);
            k < |ss| && Content(v, ss, n)[SECTOR_SIZE * k..end] == v[ss[k]][..end - SECTOR_SIZE * k]
  {
    var end := if n < SECTOR_SIZE * (k + 1) then n else SECTOR_SIZE * (k + 1);
    var s := Content(v, ss, n)[SECTOR_SIZE * k..end];
    forall i | 0 <= i < end - SECTOR_SIZE * k ensures s[i] == v[ss[k]][i] {
      DivUnique(SECTOR_SIZE * k + i, k, i, SECTOR_SIZE);
    }
  }

  /** `c` with `d` written over it from `p` on, growing when `d` reaches past the end. */
  function Overwrite(c: seq<byte>, p: nat, d: seq<byte>): (r: seq<byte>)
    requires p <= |c|
    ensures |r| == if p + |d| <= |c| then |c| else p + |d|
    ensures forall i :: 0 <= i < |r| ==> r[i] == if p <= i < p + |d| then d[i - p] else c[i]
  {
    c[..p] + d + if p + |d| <= |c| then c[p + |d|..] else []
  }

  /** Two writes in a row are one write of both pieces. */
  lemma OverwriteTwice(c: seq<byte>, p: nat, d: seq<byte>, e: seq<byte>)
    requires p <= |c|
    ensures Overwrite(Overwrite(c, p, d), p + |d|, e) == Overwrite(c, p, d + e)
  {
  }

  lemma OverwriteNone(c: seq<byte>, p: nat)
    requires p <= |c|
    ensures Overwrite(c, p, []) == c
  {
  }

  ghost predicate Injective(ss: seq<nat>) {
    forall i, j :: 0 <= i < |ss| && 0 <= j < |ss| && ss[i] == ss[j] ==> i == j
  }

  /** Content only depends on the sectors that hold it. */
  lemma ContentFrame(v: View, v': View, ss: seq<nat>, n: nat)
    requires InView(v, ss) && InView(v', ss) && n <= SECTOR_SIZE * |ss|
    requires forall i :: 0 <= i < |ss| ==> v'[ss[i]] == v[ss[i]]
    ensures Content(v', ss, n) == Content(v, ss, n)
  {
  }

  lemma ContentPrefix(v: View, ss: seq<nat>, more: seq<nat>, n: nat)
    requires InView(v, ss + more) && n <= SECTOR_SIZE * |ss|
    ensures InView(v, ss)
    ensures Content(v, ss + more, n) == Content(v, ss, n)
  {
    forall i | 0 <= i < |ss| ensures ss[i] < |v| {
      assert ss[i] == (ss + more)[i];
    }
  }

  lemma ContentShort(v: View, ss: seq<nat>, n: nat, m: nat)
    requires InView(v, ss) && n <= m <= SECTOR_SIZE * |ss|
    ensures Content(v, ss, m)[..n] == Content(v, ss, n)
  {
  }

  /** Content byte by byte. */
  lemma ContentWritten(v: View, v': View, ss: seq<nat>, n: nat, p: nat, d: seq<byte>, m: nat)
    requires InView(v, ss) && InView(v', ss)
    requires p <= n <= m <= SECTOR_SIZE * |ss| && m == if p + |d| <= n then n else p + |d|
    requires forall i :: 0 <= i < m ==>
               v'[ss[i / SECTOR_SIZE]][i % SECTOR_SIZE] ==
               if p <= i < p + |d| then d[i - p] else v[ss[i / SECTOR_SIZE]][i % SECTOR_SIZE]
    ensures Content(v', ss, m) == Overwrite(Content(v, ss, n), p, d)
  {
  }

  /** Patching part of one sector overwrites the bytes it holds. */
  lemma ContentAfterPatch(v: View, ss: seq<nat>, n: nat, j: nat, o: nat, d: seq<byte>)
    requires InView(v, ss) && Injective(ss) && j < |ss| && n <= SECTOR_SIZE * |ss|
    requires o + |d| <= SECTOR_SIZE && SECTOR_SIZE * j + o <= n
    ensures var p := SECTOR_SIZE * j + o;
            var m := if p + |d| <= n then n else p + |d|;
            var v' := v[ss[j] := Patch(v[ss[j]], o, d)];
            m <= SECTOR_SIZE * |ss| && InView(v', ss) &&
            Content(v', ss, m) == Overwrite(Content(v, ss, n), p, d)
  {
    var p := SECTOR_SIZE * j + o;
    var m := if p + |d| <= n then n else p + |d|;
    var v' := v[ss[j] := Patch(v[ss[j]], o, d)];
    assert InView(v', ss);
    forall i | 0 <= i < m
      ensures v'[ss[i / SECTOR_SIZE]][i % SECTOR_SIZE] ==
              if p <= i < p + |d| then d[i - p] else v[ss[i / SECTOR_SIZE]][i % SECTOR_SIZE]
    {
    }
    ContentWritten(v, v', ss, n, p, d, m);
  }

  /** Starting a new sector at the end of the file appends, whatever the rest of the sector holds. */
  lemma ContentAfterFresh(v: View, ss: seq<nat>, n: nat, j: nat, junk: Sector, d: seq<byte>)
    requires InView(v, ss) && Injective(ss) && j < |ss| && n == SECTOR_SIZE * j
    requires |d| <= SECTOR_SIZE
    ensures var v' := v[ss[j] := Patch(junk, 0, d)];
            n + |d| <= SECTOR_SIZE * |ss| && InView(v', ss) &&
            Content(v', ss, n + |d|) == Overwrite(Content(v, ss, n), n, d)
  {
    var v' := v[ss[j] := Patch(junk, 0, d)];
    assert InView(v', ss);
    forall i | 0 <= i < n + |d|
      ensures v'[ss[i / SECTOR_SIZE]][i % SECTOR_SIZE] ==
              if n <= i < n + |d| then d[i - n] else v[ss[i / SECTOR_SIZE]][i % SECTOR_SIZE]
    {
    }
    ContentWritten(v, v', ss, n, n, d, n + |d|);
  }

  /** A byte string of whole sectors, cut up. */
  function Chunks(b: seq<byte>): (r: seq<Sector>)
    requires |b| % SECTOR_SIZE == 0
    ensures |r| == |b| / SECTOR_SIZE
    ensures forall i :: 0 <= i < |b| ==> r[i / SECTOR_SIZE][i % SECTOR_SIZE] == b[i]
  {
    seq(|b| / SECTOR_SIZE, k requires 0 <= k < |b| / SECTOR_SIZE =>
      b[SECTOR_SIZE * k..SECTOR_SIZE * k + SECTOR_SIZE])
  }

  /** A sector elsewhere in the list is not one of a consecutive run. */
  lemma OutsideRun(ss: seq<nat>, j: nat, cc: nat, k: nat)
    requires Injective(ss) && j + cc <= |ss| && k < |ss| && 0 < cc
    requires forall i :: j <= i < j + cc ==> ss[i] == ss[j] + (i - j)
    requires !(j <= k < j + cc)
    ensures !(ss[j] <= ss[k] < ss[j] + cc)
  {
    if ss[j] <= ss[k] < ss[j] + cc {
      RunMember(ss, j, cc, j + (ss[k] - ss[j]));
    }
  }

  lemma RunMember(ss: seq<nat>, j: nat, cc: nat, i: nat)
    requires j + cc <= |ss| && j <= i < j + cc
    requires forall i :: j <= i < j + cc ==> ss[i] == ss[j] + (i - j)
    ensures ss[i] == ss[j] + (i - j)
  {
  }

  /** Writing `cc` whole consecutive sectors. */
  lemma ContentAfterOverlay(v: View, ss: seq<nat>, n: nat, j: nat, cc: nat, d: seq<byte>)
    requires InView(v, ss) && Injective(ss) && |d| == SECTOR_SIZE * cc && 0 < cc
    requires j + cc <= |ss| && n <= SECTOR_SIZE * |ss| && SECTOR_SIZE * j <= n
    requires forall k :: j <= k < j + cc ==> ss[k] == ss[j] + (k - j)
    ensures var p := SECTOR_SIZE * j;
            var m := if p + |d| <= n then n else p + |d|;
            ss[j] + cc <= |v| && m <= SECTOR_SIZE * |ss| &&
            var v' := Overlay(v, ss[j], Chunks(d));
            InView(v', ss) && Content(v', ss, m) == Overwrite(Content(v, ss, n), p, d)
  {
    var p := SECTOR_SIZE * j;
    var m := if p + |d| <= n then n else p + |d|;
    assert ss[j + cc - 1] < |v|;
    var v' := Overlay(v, ss[j], Chunks(d));
    forall i | 0 <= i < m
      ensures v'[ss[i / SECTOR_SIZE]][i % SECTOR_SIZE] ==
              if p <= i < p + |d| then d[i - p] else v[ss[i / SECTOR_SIZE]][i % SECTOR_SIZE]
    {
      var k := i / SECTOR_SIZE;
      if j <= k < j + cc {
        assert ss[k] == ss[j] + (k - j);
        assert (i - p) / SECTOR_SIZE == k - j && (i - p) % SECTOR_SIZE == i % SECTOR_SIZE;
      } else {
        OutsideRun(ss, j, cc, k);
      }
    }
    ContentWritten(v, v', ss, n, p, d, m);
  }

  // ----- reading -----

  function Flatten(d: seq<Sector>): (b: seq<byte>)
    ensures |b| == SECTOR_SIZE * |d|
    ensures forall i :: 0 <= i < |b| ==> b[i] == d[i / SECTOR_SIZE][i % SECTOR_SIZE]
  {
    seq(SECTOR_SIZE * |d|, i requires 0 <= i < SECTOR_SIZE * |d| => d[i / SECTOR_SIZE][i % SECTOR_SIZE])
  }

  /** Whole sectors read in a row are a stretch of the content. */
  lemma ContentSectors(v: View, ss: seq<nat>, n: nat, j: nat, d: seq<Sector>)
    requires InView(v, ss) && SECTOR_SIZE * (j + |d|) <= n <= SECTOR_SIZE * |ss|
    requires forall k :: j <= k < j + |d| ==> d[k - j] == v[ss[k]]
    ensures Content(v, ss, n)[SECTOR_SIZE * j..SECTOR_SIZE * (j + |d|)] == Flatten(d)
  {
    var c, p := Content(v, ss, n)[SECTOR_SIZE * j..SECTOR_SIZE * (j + |d|)], SECTOR_SIZE * j;
    forall i | 0 <= i < |c| ensures c[i] == Flatten(d)[i] {
      assert (p + i) / SECTOR_SIZE == j + i / SECTOR_SIZE && (p + i) % SECTOR_SIZE == i % SECTOR_SIZE;
      assert d[(j + i / SECTOR_SIZE) - j] == v[ss[j + i / SECTOR_SIZE]];
    }
  }

  /** Part of a sector is a stretch of the content. */
  lemma ContentPart(v: View, ss: seq<nat>, n: nat, j: nat, o: nat, k: nat)
    requires InView(v, ss) && n <= SECTOR_SIZE * |ss| && o + k <= SECTOR_SIZE && j < |ss|
    requires SECTOR_SIZE * j + o + k <= n
    ensures Content(v, ss, n)[SECTOR_SIZE * j + o..SECTOR_SIZE * j + o + k] == v[ss[j]][o..o + k]
  {
  }

  lemma Adjacent(c: seq<byte>, a: nat, b: nat, d: nat)
    requires a <= b <= d <= |c|
    ensures c[a..b] + c[b..d] == c[a..d]
  {
  }

  /** Content past a replaced sector. */
  lemma ContentBehind(v: View, ss: seq<nat>, n: nat, k: nat, x: Sector, p: nat, q: nat)
    requires InView(v, ss) && Injective(ss) && n <= SECTOR_SIZE * |ss| && k < |ss|
    requires SECTOR_SIZE * (k + 1) <= p <= q <= n
    ensures InView(v[ss[k] := x], ss)
    ensures Content(v[ss[k] := x], ss, n)[p..q] == Content(v, ss, n)[p..q]
  {
    var u := v[ss[k] := x];
    forall i | p <= i < q ensures Content(u, ss, n)[i] == Content(v, ss, n)[i] {
    }
  }

  /** A stretch of content that covers a replaced sector shows the replacement. */
  lemma ContentCovers(v: View, ss: seq<nat>, n: nat, k: nat, x: Sector, p: nat, q: nat)
    requires InView(v, ss) && Injective(ss) && n <= SECTOR_SIZE * |ss| && k < |ss|
    requires p <= SECTOR_SIZE * k && SECTOR_SIZE * (k + 1) <= q <= n
    ensures InView(v[ss[k] := x], ss)
    ensures Content(v[ss[k] := x], ss, n)[p..q] == Content(v, ss, n)[p..q] <==> x == v[ss[k]]
  {
    var u := v[ss[k] := x];
    if x == v[ss[k]] {
      assert u == v;
    } else {
      var b :| 0 <= b < SECTOR_SIZE && x[b] != v[ss[k]][b];
      var i := SECTOR_SIZE * k + b;
      assert i / SECTOR_SIZE == k && i % SECTOR_SIZE == b;
      assert Content(u, ss, n)[p..q][i - p] == x[b];
      assert Content(v, ss, n)[p..q][i - p] == v[ss[k]][b];
    }
  }
}
