/** Rings of 32 or 128 slots, seen as windows onto the history of everything put into them. */
module Ring {

  predicate Size(n: nat) { n == 32 || n == 128 }

  /** `(i + 1) & (n - 1)` for an index into the ring. */
  function Advance(i: nat, n: nat): (r: nat)
    requires Size(n) && i < n
    ensures r < n
  {
    if i + 1 == n then 0 else i + 1
  }

  /** The slot of the item with number `k`. */
  function Slot(k: nat, n: nat): (r: nat)
    requires Size(n)
    ensures r < n
  {
    if n == 32 then k % 32 else k % 128
  }

  /** The slots are used in order of their numbers, over and over. */
  lemma SlotCounts(k: nat, n: nat)
    requires Size(n)
    ensures k < n ==> Slot(k, n) == k
    ensures Slot(k + n, n) == Slot(k, n)
  {
    if n == 32 {
      assert (k + 32) % 32 == k % 32;
    } else {
      assert (k + 128) % 128 == k % 128;
    }
  }

  lemma SlotAhead(k: nat, d: nat, n: nat)
    requires Size(n) && d < n
    ensures Slot(k + d, n) == if Slot(k, n) + d < n then Slot(k, n) + d else Slot(k, n) + d - n
  {
    if n == 32 {
      Ahead32(k / 32, k % 32, d);
    } else {
      Ahead128(k / 128, k % 128, d);
    }
  }

  lemma Ahead32(q: nat, r: nat, d: nat)
    requires r < 32 && d < 32
    ensures (32 * q + r + d) % 32 == if r + d < 32 then r + d else r + d - 32
  {
    if r + d >= 32 {
      assert 32 * q + r + d == 32 * (q + 1) + (r + d - 32);
    }
  }

  lemma Ahead128(q: nat, r: nat, d: nat)
    requires r < 128 && d < 128
    ensures (128 * q + r + d) % 128 == if r + d < 128 then r + d else r + d - 128
  {
    if r + d >= 128 {
      assert 128 * q + r + d == 128 * (q + 1) + (r + d - 128);
    }
  }

  lemma SlotNext(k: nat, n: nat)
    requires Size(n)
    ensures Slot(k + 1, n) == Advance(Slot(k, n), n)
  {
    hide Slot;
    SlotAhead(k, 1, n);
  }

  /** Head and tail alone tell empty from not empty, and full from not full. */
  lemma HeadAndTail(lo: nat, hi: nat, n: nat)
    requires Size(n) && lo <= hi <= lo + n - 1
    ensures Slot(lo, n) == Slot(hi, n) <==> lo == hi
    ensures Slot(lo, n) == Advance(Slot(hi, n), n) <==> hi - lo == n - 1
  {
    hide Slot;
    SlotAhead(lo, hi - lo, n);
  }

  /** The ring holds items `lo`, `lo + 1`, ... of `history`. */
  ghost predicate Holds<T>(q: seq<T>, history: seq<T>, lo: nat) {
    Size(|q|) && forall k :: lo <= k < |history| ==> q[Slot(k, |q|)] == history[k]
  }

  /** Putting an item into a ring that is not full overwrites none it still holds. */
  lemma Push<T>(q: seq<T>, history: seq<T>, lo: nat, x: T)
    requires Holds(q, history, lo) && lo <= |history| < lo + |q|
    ensures Holds(q[Slot(|history|, |q|) := x], history + [x], lo)
  {
    hide Slot;
    var q' := q[Slot(|history|, |q|) := x];
    forall k | lo <= k < |history + [x]| ensures q'[Slot(k, |q'|)] == (history + [x])[k] {
      if k < |history| {
        HeadAndTail(k, |history|, |q|);
      }
    }
  }

  /** What stands in the slot behind the last item does not matter. */
  lemma Spare<T>(q: seq<T>, history: seq<T>, lo: nat, x: T)
    requires Holds(q, history, lo) && lo <= |history| < lo + |q|
    ensures Holds(q[Slot(|history|, |q|) := x], history, lo)
  {
    Push(q, history, lo, x);
    var q' := q[Slot(|history|, |q|) := x];
    forall k | lo <= k < |history| ensures q'[Slot(k, |q'|)] == history[k] {
      assert (history + [x])[k] == history[k];
    }
  }

  lemma Take<T>(q: seq<T>, history: seq<T>, lo: nat)
    requires Holds(q, history, lo) && lo < |history|
    ensures q[Slot(lo, |q|)] == history[lo]
    ensures Holds(q, history, lo + 1)
  {
  }
}
