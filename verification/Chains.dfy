/**
 * The cluster table as a sequence of numbers: what allocating and freeing do to it, and what that
 * means for the chains it holds. Entries 0 and 1 are reserved; a value of |t| or more ends a chain.
 */
module Chains {

  type Table = seq<nat>

  // ----- allocation: the first free cluster in cyclic order -----

  /** The k-th cluster after `scl` in cyclic order over 2, ..., n - 1. */
  function After(scl: nat, k: nat, n: nat): (c: nat)
    requires 1 <= scl < n && 1 <= k < n - 1
    ensures 2 <= c < n
  {
    if scl + k < n then scl + k else scl + k - n + 2
  }

  /** How far behind `scl` a cluster is: the inverse of `After`. */
  function Distance(scl: nat, c: nat, n: nat): (k: nat)
    requires 1 <= scl < n && 2 <= c < n
    ensures 1 <= k < n - 1 && After(scl, k, n) == c
  {
    if scl < c then c - scl else c + n - 2 - scl
  }

  /** The cyclic order visits every cluster once. */
  lemma AfterInjective(scl: nat, j: nat, k: nat, n: nat)
    requires 1 <= scl < n && 1 <= j < n - 1 && 1 <= k < n - 1
    ensures After(scl, j, n) == After(scl, k, n) ==> j == k
  {
  }

  /** What looking at the k-th, (k+1)-th, ... cluster after `scl` yields: a free one, 1 or 0. */
  function Search(t: Table, scl: nat, k: nat): (r: nat)
    requires 1 <= scl < |t| && 1 <= k <= |t| - 1
    ensures r < |t|
    decreases |t| - k
  {
    if k == |t| - 1 then 0
    else
      var c := After(scl, k, |t|);
      if t[c] == 0 then c else if t[c] == 1 then 1 else Search(t, scl, k + 1)
  }

  /** One turn of the search, which stands at `c`, the k-th cluster after `scl`. */
  lemma SearchTurn(t: Table, scl: nat, k: nat, c: nat)
    requires 1 <= scl < |t| && k < |t| - 1 && (k == |t| - 2 ==> scl == 1)
    requires c == if k == 0 then scl else After(scl, k, |t|)
    ensures c < |t|
    ensures c + 1 == |t| && scl == 1 ==> Search(t, scl, k + 1) == 0
    ensures !(c + 1 == |t| && scl == 1) ==>
              var d := if c + 1 == |t| then 2 else c + 1;
              && k + 1 < |t| - 1 && 2 <= d < |t| && d == After(scl, k + 1, |t|)
              && (d == scl ==> k + 1 == |t| - 2)
              && (d != scl && k + 1 == |t| - 2 ==> scl == 1)
              && Search(t, scl, k + 1) ==
                 if t[d] == 0 then d else if t[d] == 1 then 1 else if d == scl then 0 else Search(t, scl, k + 2)
  {
  }

  ghost predicate NoFree(t: Table) {
    forall c :: 2 <= c < |t| ==> t[c] != 0
  }

  /** No entry holds the value 1, which the driver uses to report an internal error. */
  ghost predicate Clean(t: Table) {
    forall c :: 2 <= c < |t| ==> t[c] != 1
  }

  /** A hit is free and every cluster met before it is in use. */
  lemma {:induction false} SearchHit(t: Table, scl: nat, k: nat)
    requires 1 <= scl < |t| && 1 <= k <= |t| - 1
    requires Search(t, scl, k) >= 2
    ensures var r := Search(t, scl, k);
            t[r] == 0 && k <= Distance(scl, r, |t|) &&
            forall j :: k <= j < Distance(scl, r, |t|) ==> t[After(scl, j, |t|)] > 1
    decreases |t| - k
  {
    var r := Search(t, scl, k);
    var c := After(scl, k, |t|);
    if t[c] == 0 {
      AfterInjective(scl, k, Distance(scl, c, |t|), |t|);
    } else {
      SearchHit(t, scl, k + 1);
    }
  }

  /** The search misses exactly when everything it looks at is in use. */
  lemma {:induction false} SearchMiss(t: Table, scl: nat, k: nat)
    requires 1 <= scl < |t| && 1 <= k <= |t| - 1
    ensures Search(t, scl, k) == 0 <==> forall j :: k <= j < |t| - 1 ==> t[After(scl, j, |t|)] > 1
    decreases |t| - k
  {
    if k < |t| - 1 {
      SearchMiss(t, scl, k + 1);
    }
  }

  /** On a clean table a full search reports "none" exactly when no cluster is free. */
  lemma SearchAll(t: Table, scl: nat)
    requires 1 <= scl < |t| && 2 <= |t|
    requires Clean(t)
    ensures Search(t, scl, 1) == 0 <==> NoFree(t)
    ensures Search(t, scl, 1) != 1
  {
    SearchMiss(t, scl, 1);
    if Search(t, scl, 1) == 0 {
      forall c | 2 <= c < |t| ensures t[c] != 0 {
        assert t[After(scl, Distance(scl, c, |t|), |t|)] > 1;
      }
    }
    SearchStops(t, scl, 1);
    if Search(t, scl, 1) >= 2 {
      SearchHit(t, scl, 1);
    }
  }

  /** Cluster `r` is free, and those passed on the way to it, upwards from `from` and round the end, are not. */
  ghost predicate NextFree(t: Table, from: nat, r: nat) {
    && 2 <= r < |t| && t[r] == 0
    && forall c :: 2 <= c < |t| && (if from < r then from < c < r else c < r || from < c) ==> t[c] != 0
  }

  lemma SearchTakes(t: Table, scl: nat)
    requires 1 <= scl < |t| && 2 <= |t|
    ensures var r := Search(t, scl, 1);
            && (r >= 2 ==> NextFree(t, scl, r))
            && (r == 0 ==> NoFree(t))
  {
    var r := Search(t, scl, 1);
    if r >= 2 {
      SearchHit(t, scl, 1);
      forall c | 2 <= c < |t| && (if scl < r then scl < c < r else c < r || scl < c) ensures t[c] != 0 {
        assert t[After(scl, Distance(scl, c, |t|), |t|)] > 1;
      }
    } else if r == 0 {
      SearchMiss(t, scl, 1);
      forall c | 2 <= c < |t| ensures t[c] != 0 {
        assert t[After(scl, Distance(scl, c, |t|), |t|)] > 1;
      }
    }
  }

  lemma {:induction false} SearchStops(t: Table, scl: nat, k: nat)
    requires 1 <= scl < |t| && 1 <= k <= |t| - 1
    requires Clean(t)
    ensures Search(t, scl, k) != 1
    decreases |t| - k
  {
    if k < |t| - 1 {
      SearchStops(t, scl, k + 1);
    }
  }

  // ----- chains -----

  /** `s` is a whole chain of `t`: linked in order and ended by an end mark. */
  ghost predicate IsChain(t: Table, s: seq<nat>) {
    && 0 < |s|
    && (forall i :: 0 <= i < |s| ==> 2 <= s[i] < |t|)
    && (forall i :: 0 <= i < |s| - 1 ==> t[s[i]] == s[i + 1])
    && t[s[|s| - 1]] >= |t|
  }

  ghost predicate Distinct(s: seq<nat>) {
    forall i, j :: 0 <= i < j < |s| ==> s[i] != s[j]
  }

  ghost predicate Apart(s: seq<nat>, u: seq<nat>) {
    forall i, j :: 0 <= i < |s| && 0 <= j < |u| ==> s[i] != u[j]
  }

  /** A chain that ends never meets itself: acyclicity follows from the end mark. */
  lemma ChainDistinct(t: Table, s: seq<nat>)
    requires IsChain(t, s)
    ensures Distinct(s)
  {
    forall i, j | 0 <= i < j < |s| ensures s[i] != s[j] {
      if s[i] == s[j] {
        SameSuffix(t, s, i, j);
      }
    }
  }

  lemma {:induction false} SameSuffix(t: Table, s: seq<nat>, i: nat, j: nat)
    requires IsChain(t, s) && i < j < |s|
    ensures s[i] != s[j]
    decreases |s| - j
  {
    if s[i] == s[j] {
      assert t[s[i]] == s[i + 1];
      if j < |s| - 1 {
        SameSuffix(t, s, i + 1, j + 1);
      }
    }
  }

  /** No free cluster lies on a chain. */
  lemma ChainInUse(t: Table, s: seq<nat>, i: nat)
    requires IsChain(t, s) && i < |s|
    ensures t[s[i]] >= 2
  {
    if i < |s| - 1 {
      assert t[s[i]] == s[i + 1];
    }
  }

  /** A chain only depends on its own entries. */
  lemma ChainFrame(t: Table, t': Table, s: seq<nat>)
    requires IsChain(t, s) && |t'| == |t|
    requires forall i :: 0 <= i < |s| ==> t'[s[i]] == t[s[i]]
    ensures IsChain(t', s)
  {
  }

  /** The table after free cluster `c` is marked with `eoc` and hung behind `clst` (0: behind nothing). */
  function Linked(t: Table, clst: nat, c: nat, eoc: nat): (t': Table)
    requires c < |t| && clst < |t|
    ensures |t'| == |t|
  {
    var u := t[c := eoc];
    if clst == 0 then u else u[clst := c]
  }

  /** Stretching a chain adds exactly the new cluster at its end. */
  lemma StretchChain(t: Table, s: seq<nat>, c: nat, eoc: nat)
    requires IsChain(t, s) && 2 <= c < |t| && t[c] == 0 && eoc >= |t|
    ensures IsChain(Linked(t, s[|s| - 1], c, eoc), s + [c])
    ensures c !in s
  {
    var last := |s| - 1;
    var t', s' := Linked(t, s[last], c, eoc), s + [c];
    ChainDistinct(t, s);
    forall i | 0 <= i < |s| ensures s[i] != c {
      ChainInUse(t, s, i);
    }
    forall i | 0 <= i < |s'| - 1 ensures t'[s'[i]] == s'[i + 1] {
      if i < last {
        assert s[i] != s[last];
      }
    }
  }

  /** A new chain is the new cluster alone. */
  lemma NewChain(t: Table, c: nat, eoc: nat)
    requires 2 <= c < |t| && t[c] == 0 && eoc >= |t|
    ensures IsChain(Linked(t, 0, c, eoc), [c])
  {
  }

  /** Stretching leaves every other chain as it was and clear of the new cluster. */
  lemma OtherChain(t: Table, clst: nat, c: nat, eoc: nat, o: seq<nat>)
    requires 2 <= c < |t| && clst < |t| && t[c] == 0 && IsChain(t, o)
    requires clst !in o
    ensures IsChain(Linked(t, clst, c, eoc), o)
    ensures c !in o
  {
    forall i | 0 <= i < |o| ensures o[i] != c && o[i] != clst {
      ChainInUse(t, o, i);
      assert o[i] in o;
    }
    ChainFrame(t, Linked(t, clst, c, eoc), o);
  }

  /** Where the search for a free cluster starts: the hint for a new chain, else the chain's end. */
  function SearchFrom(t: Table, last: nat, clst: nat): (scl: nat)
    requires 2 <= |t| && clst < |t|
    ensures 1 <= scl < |t|
  {
    if clst != 0 then clst else if last == 0 || last >= |t| then 1 else last
  }

  /** Hang the first free cluster behind `clst` (0: behind nothing): the cluster, the table, the hint. */
  function HangBehind(t: Table, last: nat, clst: nat, eoc: nat): (r: (nat, Table, nat))
    requires 2 <= |t| && clst < |t|
    ensures |r.1| == |t|
  {
    var c := Search(t, SearchFrom(t, last, clst), 1);
    if c < 2 then (c, t, last) else (c, Linked(t, clst, c, eoc), c)
  }

  /**
   * What `create_chain` returns and what it does to the table and to the hint: follow the link of
   * `clst` when it has one, otherwise hang the first free cluster behind it (0: behind nothing).
   */
  function Create(t: Table, last: nat, clst: nat, eoc: nat): (r: (nat, Table, nat))
    requires 2 <= |t|
    ensures |r.1| == |t|
  {
    if clst != 0 && (clst < 2 || clst >= |t| || t[clst] < 2) then (1, t, last)
    else if clst != 0 && t[clst] < |t| then (t[clst], t, last)
    else HangBehind(t, last, clst, eoc)
  }

  /**
   * Hanging a cluster behind one inside a chain cuts the chain: it ends with the new cluster, and the
   * clusters that followed stay in use.
   */
  lemma HangingCuts(t: Table, last: nat, s: seq<nat>, k: nat, eoc: nat)
    requires IsChain(t, s) && k < |s| - 1 && eoc >= |t|
    requires HangBehind(t, last, s[k], eoc).0 >= 2
    ensures var r := HangBehind(t, last, s[k], eoc);
            && IsChain(r.1, s[..k + 1] + [r.0])
            && forall i :: k < i < |s| ==> s[i] !in s[..k + 1] + [r.0] && r.1[s[i]] == t[s[i]] != 0
  {
    hide Search;
    SearchHit(t, s[k], 1);
    ChainDistinct(t, s);
    var r := HangBehind(t, last, s[k], eoc);
    forall i | 0 <= i < |s| ensures s[i] != r.0 {
      ChainInUse(t, s, i);
    }
    forall i | k < i < |s| ensures s[i] !in s[..k + 1] + [r.0] && r.1[s[i]] == t[s[i]] != 0 {
      ChainInUse(t, s, i);
      assert forall j :: 0 <= j < k + 1 ==> s[..k + 1][j] == s[j] != s[i];
    }
  }

  /**
   * What `create_chain` does: an entry out of range or no link at all is an error, a link is followed, and
   * otherwise the next free cluster after the end of the chain, or for a new chain after the one taken
   * last, is marked as an end, hung behind the old end and remembered; when there is none nothing changes.
   */
  lemma CreateMeans(t: Table, last: nat, clst: nat, eoc: nat)
    requires 2 <= |t| && eoc >= |t|
    ensures var (r, t', last') := Create(t, last, clst, eoc);
            var ends := clst == 0 || (2 <= clst < |t| && t[clst] >= |t|);
            && (!ends ==> (t', last') == (t, last) && r == if 2 <= clst < |t| && t[clst] >= 2 then t[clst] else 1)
            && (ends && r >= 2 ==>
                  && NextFree(t, if clst != 0 then clst else if 1 <= last < |t| then last else 1, r)
                  && t'[r] == eoc && (clst != 0 ==> r != clst && t'[clst] == r) && last' == r
                  && forall c :: 0 <= c < |t| && c != r && c != clst ==> t'[c] == t[c])
            && (ends && r < 2 ==> (t', last') == (t, last) && (r == 0 ==> NoFree(t)) && (Clean(t) ==> r == 0))
  {
    hide Search;
    var ends := clst == 0 || (2 <= clst < |t| && t[clst] >= |t|);
    if ends {
      SearchTakes(t, SearchFrom(t, last, clst));
      if Clean(t) {
        SearchAll(t, SearchFrom(t, last, clst));
      }
    }
  }

  /** A request that yields no cluster changes nothing. */
  lemma CreateNone(t: Table, last: nat, clst: nat, eoc: nat)
    requires 2 <= |t|
    ensures var c := Create(t, last, clst, eoc); c.0 < 2 ==> c.1 == t && c.2 == last
  {
  }

  /** Stretch chain `s` until it has `need` clusters or none is free: the table, the hint, the chain. */
  function Grow(t: Table, last: nat, s: seq<nat>, need: nat, eoc: nat): (r: (Table, nat, seq<nat>))
    requires 2 <= |t|
    ensures |r.0| == |t| && s <= r.2
    ensures |s| >= need ==> r == (t, last, s)
    ensures |r.2| <= (if |s| < need then need else |s|)
    decreases need - |s|
  {
    if |s| >= need then (t, last, s)
    else
      var c := Create(t, last, End(s), eoc);
      if c.0 < 2 then (t, last, s) else Grow(c.1, c.2, s + [c.0], need, eoc)
  }

  /** The cluster to link behind: the last of a chain, 0 for none. */
  function End(s: seq<nat>): nat {
    if s == [] then 0 else s[|s| - 1]
  }

  /** Growing to one more cluster is growing and then one more allocation. */
  lemma {:induction false} GrowOne(t: Table, last: nat, s: seq<nat>, need: nat, eoc: nat)
    requires 2 <= |t| && |Grow(t, last, s, need, eoc).2| == need
    ensures var g := Grow(t, last, s, need, eoc);
            var c := Create(g.0, g.1, End(g.2), eoc);
            Grow(t, last, s, need + 1, eoc) == if c.0 < 2 then g else (c.1, c.2, g.2 + [c.0])
    decreases need - |s|
  {
    if |s| < need {
      var c := Create(t, last, End(s), eoc);
      if c.0 >= 2 {
        GrowOne(c.1, c.2, s + [c.0], need, eoc);
      }
    }
  }

  /** Once no cluster can be had, asking for more changes nothing. */
  lemma {:induction false} GrowStuck(t: Table, last: nat, s: seq<nat>, need: nat, more: nat, eoc: nat)
    requires 2 <= |t| && need <= more
    requires var g := Grow(t, last, s, need, eoc);
             |g.2| <= need && Create(g.0, g.1, End(g.2), eoc).0 < 2
    ensures Grow(t, last, s, more, eoc) == Grow(t, last, s, need, eoc)
    decreases need - |s|
  {
    if |s| < need {
      var c := Create(t, last, End(s), eoc);
      if c.0 >= 2 {
        GrowStuck(c.1, c.2, s + [c.0], need, more, eoc);
      }
    }
  }

  /** Growing in two steps is growing in one. */
  lemma {:induction false} GrowTwice(t: Table, last: nat, s: seq<nat>, need: nat, more: nat, eoc: nat)
    requires 2 <= |t| && need <= more
    ensures var g := Grow(t, last, s, need, eoc);
            Grow(g.0, g.1, g.2, more, eoc) == Grow(t, last, s, more, eoc)
    decreases need - |s|
  {
    if |s| < need {
      var c := Create(t, last, End(s), eoc);
      if c.0 >= 2 {
        GrowTwice(c.1, c.2, s + [c.0], need, more, eoc);
      }
    }
  }

  /** One cluster further along a grown chain: follow its link or stretch it. */
  lemma GrowNext(t0: Table, l0: nat, s0: seq<nat>, m: nat, eoc: nat)
    requires 2 <= |t0| && 1 <= m
    requires var g := Grow(t0, l0, s0, m, eoc);
             m <= |g.2| && (m < |g.2| ==> 2 <= g.2[m - 1] < |t0| && 2 <= g.0[g.2[m - 1]] < |t0|)
    ensures var g := Grow(t0, l0, s0, m, eoc);
            var c := Create(g.0, g.1, g.2[m - 1], eoc);
            && (m < |g.2| ==> c == (g.0[g.2[m - 1]], g.0, g.1) && Grow(t0, l0, s0, m + 1, eoc) == g)
            && (c.0 < 2 ==> c.1 == g.0 && c.2 == g.1)
            && (m == |g.2| ==>
                  && End(g.2) == g.2[m - 1]
                  && Grow(t0, l0, s0, m + 1, eoc) == if c.0 < 2 then g else (c.1, c.2, g.2 + [c.0]))
  {
    if |Grow(t0, l0, s0, m, eoc).2| == m {
      GrowOne(t0, l0, s0, m, eoc);
    }
  }

  // ----- freeing -----

  /** The number of zero entries among clusters 2, ..., k - 1. */
  function Zeros(t: Table, k: nat): (z: nat)
    requires k <= |t|
    ensures z <= k
  {
    if k <= 2 then 0 else Zeros(t, k - 1) + if t[k - 1] == 0 then 1 else 0
  }

  function FreeCount(t: Table): (z: nat)
    ensures z <= |t|
  {
    Zeros(t, |t|)
  }

  /** It counts the free clusters. */
  lemma FreeCountMeans(t: Table)
    ensures FreeCount(t) == |set c | 2 <= c < |t| && t[c] == 0|
    ensures FreeCount(t) == 0 <==> NoFree(t)
  {
    ZerosMeans(t, |t|);
    var free := set c | 2 <= c < |t| && t[c] == 0;
    if free == {} {
      forall c | 2 <= c < |t| ensures t[c] != 0 {
        assert c !in free;
      }
    } else {
      var c :| c in free;
    }
  }

  lemma {:induction false} ZerosMeans(t: Table, k: nat)
    requires k <= |t|
    ensures Zeros(t, k) == |set c | 2 <= c < k && t[c] == 0|
  {
    var now := set c | 2 <= c < k && t[c] == 0;
    if k > 2 {
      ZerosMeans(t, k - 1);
      var before := set c | 2 <= c < k - 1 && t[c] == 0;
      assert now == if t[k - 1] == 0 then before + {k - 1} else before;
    } else {
      assert now == {};
    }
  }

  lemma {:induction false} ZerosUpdate(t: Table, c: nat, x: nat, k: nat)
    requires 2 <= c < |t| && k <= |t|
    ensures Zeros(t[c := x], k) ==
            Zeros(t, k) - (if c < k && t[c] == 0 then 1 else 0) + (if c < k && x == 0 then 1 else 0)
  {
    if k > 2 {
      ZerosUpdate(t, c, x, k - 1);
    }
  }

  lemma FreeCountUpdate(t: Table, c: nat, x: nat)
    requires 2 <= c < |t|
    ensures FreeCount(t[c := x]) ==
            FreeCount(t) - (if t[c] == 0 then 1 else 0) + (if x == 0 then 1 else 0)
  {
    ZerosUpdate(t, c, x, |t|);
  }

  /** The table left when freeing starts at `c`, on any table at all, and whether it met no bad entry. */
  function Freed(t: Table, c: nat): (r: (Table, bool))
    requires 2 <= c
    ensures |r.0| == |t|
    decreases |t| - FreeCount(t)
  {
    if c >= |t| || t[c] == 0 then (t, true)
    else if t[c] == 1 then (t, false)
    else
      FreeCountUpdate(t, c, 0);
      Freed(t[c := 0], t[c])
  }

  /** Allocation changes the table. */
  lemma LinkedDiffers(t: Table, clst: nat, c: nat, eoc: nat)
    requires 2 <= c < |t| && t[c] == 0 && eoc != 0 && clst < |t|
    ensures Linked(t, clst, c, eoc)[c] != 0
  {
  }

  /** Allocation takes exactly one cluster from the free ones. */
  lemma LinkedCount(t: Table, clst: nat, c: nat, eoc: nat)
    requires 2 <= c < |t| && t[c] == 0 && eoc != 0
    requires clst == 0 || (2 <= clst < |t| && t[clst] != 0)
    ensures FreeCount(Linked(t, clst, c, eoc)) == FreeCount(t) - 1
  {
    FreeCountUpdate(t, c, eoc);
    if clst != 0 {
      FreeCountUpdate(t[c := eoc], clst, c);
    }
  }

  lemma FreedStep(t: Table, c: nat)
    requires 2 <= c
    ensures c >= |t| || t[c] == 0 ==> Freed(t, c) == (t, true)
    ensures c < |t| && t[c] == 1 ==> Freed(t, c) == (t, false)
    ensures c < |t| && t[c] >= 2 ==>
              && Freed(t, c) == Freed(t[c := 0], t[c])
              && FreeCount(t[c := 0]) == FreeCount(t) + 1
    ensures FreeCount(t) <= |t|
  {
    if c < |t| {
      FreeCountUpdate(t, c, 0);
    }
  }

  /** `t` with every cluster of `s` marked free. */
  function Cleared(t: Table, s: seq<nat>): (r: Table)
    ensures |r| == |t|
  {
    seq(|t|, c requires 0 <= c < |t| => if c in s then 0 else t[c])
  }

  /** Freeing a chain frees exactly its clusters. */
  lemma {:induction false} FreedChain(t: Table, s: seq<nat>)
    requires IsChain(t, s)
    ensures Freed(t, s[0]) == (Cleared(t, s), true)
    decreases |s|
  {
    ChainDistinct(t, s);
    ChainInUse(t, s, 0);
    var t' := t[s[0] := 0];
    if |s| == 1 {
      assert Cleared(t, s) == t';
    } else {
      var u := s[1..];
      assert IsChain(t', u) by {
        forall i | 0 <= i < |u| ensures t'[u[i]] == t[u[i]] && u[i] == s[i + 1] {
          assert s[0] != s[i + 1];
        }
      }
      FreedChain(t', u);
      assert s == [s[0]] + u;
      assert Cleared(t', u) == Cleared(t, s);
    }
  }

  /** On any table, freeing only turns entries into zero, and only those it counts. */
  lemma {:induction false} FreedOnlyClears(t: Table, c: nat)
    requires 2 <= c
    ensures forall d :: 0 <= d < |t| ==> Freed(t, c).0[d] == t[d] || Freed(t, c).0[d] == 0
    ensures FreeCount(Freed(t, c).0) >= FreeCount(t)
    decreases |t| - FreeCount(t)
  {
    if c < |t| && t[c] >= 2 {
      FreeCountUpdate(t, c, 0);
      FreedOnlyClears(t[c := 0], t[c]);
    }
  }

  /** Freeing one chain keeps every chain that shares no cluster with it. */
  lemma ClearedOther(t: Table, s: seq<nat>, o: seq<nat>)
    requires IsChain(t, o) && Apart(s, o)
    ensures IsChain(Cleared(t, s), o)
  {
    ChainFrame(t, Cleared(t, s), o);
  }

  // ----- link safety -----

  /** No entry links to a free cluster. */
  ghost predicate NoDangling(t: Table) {
    forall c :: 2 <= c < |t| && 2 <= t[c] < |t| ==> t[t[c]] != 0
  }

  /** No two entries link to the same cluster. */
  ghost predicate Unshared(t: Table) {
    forall c, d :: 2 <= c < |t| && 2 <= d < |t| && c != d && 2 <= t[c] < |t| ==> t[c] != t[d]
  }

  ghost predicate NotLinkedTo(t: Table, h: nat) {
    forall c :: 2 <= c < |t| ==> t[c] != h
  }

  /** Both stores of an allocation leave no entry that links to a free cluster. */
  lemma LinkSafe(t: Table, clst: nat, c: nat, eoc: nat)
    requires NoDangling(t) && 2 <= c < |t| && t[c] == 0 && eoc >= |t|
    requires clst == 0 || 2 <= clst < |t|
    ensures NoDangling(t[c := eoc])
    ensures NoDangling(Linked(t, clst, c, eoc))
  {
  }

  /** One step of freeing keeps the links safe when it starts at a cluster nothing links to. */
  lemma FreeSafe(t: Table, h: nat)
    requires NoDangling(t) && Unshared(t) && 2 <= h < |t| && NotLinkedTo(t, h)
    requires t[h] >= 2
    ensures NoDangling(t[h := 0]) && Unshared(t[h := 0])
    ensures t[h] < |t| ==> NotLinkedTo(t[h := 0], t[h])
  {
  }
}
