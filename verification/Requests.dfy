/**
 * The messages of the inter-processor protocol, and `ipc_enqueue_slow` one access at a time: what is
 * left in the slow queue when interrupts enqueue requests of their own in between.
 */
module Requests {
  import opened Ring

  const SLOW_SIZE := 128
  const IPC_SLOW := 0

  type Word = x: nat | x < 0x1_0000_0000

  /** The first word of a message. */
  datatype Code = Code(flags: nat, device: nat, req: nat)

  type Args = s: seq<Word> | |s| == 6 witness [0, 0, 0, 0, 0, 0]

  datatype Message = Message(code: Code, tag: Word, args: Args)

  /** What a caller of `ipc_enqueue_slow` asks for. */
  datatype Wanted = Wanted(device: nat, req: nat, args: seq<Word>) {
    predicate Fits() { |args| <= 6 }

    /** The stores to the slot: flags, device, request, tag and one for each argument. */
    function Stores(): nat { 4 + |args| }
  }

  /** Store number `i`. */
  function Put(x: Message, w: Wanted, i: nat): (y: Message)
    requires w.Fits() && i < w.Stores()
    ensures forall k :: 0 <= k < w.Stores() ==> (Has(y, w, k) <==> k == i || Has(x, w, k))
  {
    if i == 0 then x.(code := x.code.(flags := IPC_SLOW))
    else if i == 1 then x.(code := x.code.(device := w.device))
    else if i == 2 then x.(code := x.code.(req := w.req))
    else if i == 3 then x.(tag := 0)
    else x.(args := x.args[i - 4 := w.args[i - 4]])
  }

  /** What store number `k` would put there stands there. */
  predicate Has(x: Message, w: Wanted, k: nat)
    requires w.Fits() && k < w.Stores()
  {
    if k == 0 then x.code.flags == IPC_SLOW
    else if k == 1 then x.code.device == w.device
    else if k == 2 then x.code.req == w.req
    else if k == 3 then x.tag == 0
    else x.args[k - 4] == w.args[k - 4]
  }

  predicate HasUpTo(x: Message, w: Wanted, n: nat)
    requires w.Fits() && n <= w.Stores()
  {
    forall k :: 0 <= k < n ==> Has(x, w, k)
  }

  /** Stores `a`, ..., `b - 1` in order. */
  function PutRange(x: Message, w: Wanted, a: nat, b: nat): (y: Message)
    requires w.Fits() && a <= b <= w.Stores()
    ensures forall k :: 0 <= k < w.Stores() ==> (Has(y, w, k) <==> a <= k < b || Has(x, w, k))
  {
    if a == b then x else Put(PutRange(x, w, a, b - 1), w, b - 1)
  }

  /** A slot that holds the request; arguments it does not have are whatever the slot held. */
  predicate Carries(x: Message, w: Wanted)
  {
    x.code == Code(IPC_SLOW, w.device, w.req) && x.tag == 0 && w.args <= x.args
  }

  lemma CarriesAll(x: Message, w: Wanted)
    requires w.Fits()
    ensures Carries(x, w) <==> forall k :: 0 <= k < w.Stores() ==> Has(x, w, k)
  {
    if forall k :: 0 <= k < w.Stores() ==> Has(x, w, k) {
      assert Has(x, w, 0) && Has(x, w, 1) && Has(x, w, 2) && Has(x, w, 3);
      forall k | 0 <= k < |w.args| ensures x.args[k] == w.args[k] {
        assert Has(x, w, k + 4);
      }
    }
  }

  // ----- interrupts in the gaps -----

  /** For each gap between two accesses, what the interrupts taken in it enqueue. */
  type Gaps = seq<seq<Message>>

  function Flat(gaps: Gaps): (ms: seq<Message>) {
    if gaps == [] then [] else Flat(gaps[..|gaps| - 1]) + gaps[|gaps| - 1]
  }

  /** For each store, and for the tail at the end: a gap before the tail is read, and one before the write. */
  predicate Schedule(w: Wanted, gaps: Gaps) { w.Fits() && |gaps| == 2 * w.Stores() + 2 }

  /** Requests enqueued before the tail is read for the last time. */
  function Early(w: Wanted, gaps: Gaps): seq<Message>
    requires Schedule(w, gaps)
  {
    Flat(gaps[..2 * w.Stores() + 1])
  }

  /** Requests enqueued between that and the write of the tail. */
  function Late(w: Wanted, gaps: Gaps): seq<Message>
    requires Schedule(w, gaps)
  {
    gaps[2 * w.Stores() + 1]
  }

  /** What becomes of the requests of gap `g`: a store the interrupts came in front of hits the first. */
  function Hit(w: Wanted, gaps: Gaps, g: nat): (ms: seq<Message>)
    requires Schedule(w, gaps) && g <= 2 * w.Stores()
    ensures |ms| == |gaps[g]|
  {
    if g % 2 == 1 && gaps[g] != [] then [Put(gaps[g][0], w, g / 2)] + gaps[g][1..] else gaps[g]
  }

  /** What becomes of the requests of the first `g` gaps. */
  function Marred(w: Wanted, gaps: Gaps, g: nat): (ms: seq<Message>)
    requires Schedule(w, gaps) && g <= 2 * w.Stores() + 1
  {
    if g == 0 then [] else Marred(w, gaps, g - 1) + Hit(w, gaps, g - 1)
  }

  /** No store changes a request it hits. */
  ghost predicate Untorn(w: Wanted, gaps: Gaps, g: nat)
    requires Schedule(w, gaps) && g <= 2 * w.Stores() + 1
  {
    forall k :: 0 <= k < g ==> Hit(w, gaps, k) == gaps[k]
  }

  /** How many stores went elsewhere before the last interruption in the first `g` gaps was over. */
  function Missed(gaps: Gaps, g: nat): (i: nat)
    requires g <= |gaps|
    ensures i <= g / 2
  {
    if g == 0 then 0 else if gaps[g - 1] != [] then g / 2 else Missed(gaps, g - 1)
  }

  /** A ring after items were laid into the slots from number `at` on. */
  function Lay(q: seq<Message>, at: nat, ms: seq<Message>): (r: seq<Message>)
    requires |q| == SLOW_SIZE
    ensures |r| == SLOW_SIZE
  {
    if ms == [] then q else Lay(q, at, ms[..|ms| - 1])[Slot(at + |ms| - 1, SLOW_SIZE) := ms[|ms| - 1]]
  }

  /** An enqueuer finds the queue full: the caller with `held` requests in it, or an interrupt. */
  predicate Overruns(held: nat, w: Wanted, gaps: Gaps)
    requires Schedule(w, gaps)
  {
    held + 1 == SLOW_SIZE || held + |Early(w, gaps)| + |Late(w, gaps)| >= SLOW_SIZE
  }

  /** What ends up in the slot the tail moves past last; `n` requests have arrived before. */
  function Landed(q: seq<Message>, n: nat, w: Wanted, gaps: Gaps): Message
    requires Schedule(w, gaps) && |q| == SLOW_SIZE
  {
    PutRange(q[Slot(n + |Early(w, gaps)|, SLOW_SIZE)], w, Missed(gaps, 2 * w.Stores() + 1), w.Stores())
  }

  /** The slots afterwards. */
  function SlotsLeft(q: seq<Message>, n: nat, w: Wanted, gaps: Gaps): (r: seq<Message>)
    requires Schedule(w, gaps) && |q| == SLOW_SIZE
    ensures |r| == SLOW_SIZE
  {
    var p := n + |Early(w, gaps)|;
    var laid := Lay(q, n, Marred(w, gaps, 2 * w.Stores() + 1));
    Lay(laid[Slot(p, SLOW_SIZE) := Landed(q, n, w, gaps)], p, Late(w, gaps))
  }

  /** The tail afterwards. */
  function TailLeft(n: nat, w: Wanted, gaps: Gaps): nat
    requires Schedule(w, gaps)
  {
    Slot(n + |Early(w, gaps)| + 1, SLOW_SIZE)
  }

  // ----- the run, step by step -----

  /** The slots after `g` gaps and `b` stores. */
  function Patched(q: seq<Message>, n: nat, w: Wanted, gaps: Gaps, g: nat, b: nat): (r: seq<Message>)
    requires Schedule(w, gaps) && |q| == SLOW_SIZE && g <= 2 * w.Stores() + 1 && g / 2 <= b <= w.Stores()
    ensures |r| == SLOW_SIZE
  {
    var s := Slot(n + |Flat(gaps[..g])|, SLOW_SIZE);
    Lay(q, n, Marred(w, gaps, g))[s := PutRange(q[s], w, Missed(gaps, g), b)]
  }

  lemma {:induction false} MarredLength(w: Wanted, gaps: Gaps, g: nat)
    requires Schedule(w, gaps) && g <= 2 * w.Stores() + 1
    ensures |Marred(w, gaps, g)| == |Flat(gaps[..g])|
    decreases g
  {
    if g > 0 {
      hide Hit, Flat;
      MarredLength(w, gaps, g - 1);
      FlatMore(gaps, g - 1);
    }
  }

  /** Interrupts before the tail is read. */
  lemma BeforeRead(q: seq<Message>, n: nat, w: Wanted, gaps: Gaps, i: nat)
    requires Schedule(w, gaps) && |q| == SLOW_SIZE && i <= w.Stores()
    requires |Flat(gaps[..2 * i])| + |gaps[2 * i]| < SLOW_SIZE
    ensures Flat(gaps[..2 * i + 1]) == Flat(gaps[..2 * i]) + gaps[2 * i]
    ensures Lay(Patched(q, n, w, gaps, 2 * i, i), n + |Flat(gaps[..2 * i])|, gaps[2 * i]) ==
            Patched(q, n, w, gaps, 2 * i + 1, i)
  {
    hide Slot, Lay, PutRange, Marred, Missed, Flat;
    FlatMore(gaps, 2 * i);
    GapOver(w, gaps, 2 * i);
    if gaps[2 * i] != [] {
      Overlaid(q, n, w, gaps, 2 * i, i);
      NoStores(q[Slot(n + |Flat(gaps[..2 * i + 1])|, SLOW_SIZE)], w, i);
      StoreSame(Lay(q, n, Marred(w, gaps, 2 * i + 1)), Slot(n + |Flat(gaps[..2 * i + 1])|, SLOW_SIZE));
    } else {
      NothingLaid(Patched(q, n, w, gaps, 2 * i, i), n + |Flat(gaps[..2 * i])|);
    }
  }

  /** One more gap. */
  lemma GapOver(w: Wanted, gaps: Gaps, g: nat)
    requires Schedule(w, gaps) && g <= 2 * w.Stores()
    ensures Marred(w, gaps, g + 1) == Marred(w, gaps, g) + Hit(w, gaps, g)
    ensures gaps[g] == [] ==> Marred(w, gaps, g + 1) == Marred(w, gaps, g) && Flat(gaps[..g + 1]) == Flat(gaps[..g])
    ensures Missed(gaps, g + 1) == if gaps[g] == [] then Missed(gaps, g) else (g + 1) / 2
  {
    FlatMore(gaps, g);
    if gaps[g] == [] {
      hide Marred, Flat;
      assert Marred(w, gaps, g) + [] == Marred(w, gaps, g) && Flat(gaps[..g]) + [] == Flat(gaps[..g]);
      assert Marred(w, gaps, g + 1) == Marred(w, gaps, g) + Hit(w, gaps, g) by { MarredMore(w, gaps, g); }
    }
  }

  lemma MarredMore(w: Wanted, gaps: Gaps, g: nat)
    requires Schedule(w, gaps) && g <= 2 * w.Stores()
    ensures Marred(w, gaps, g + 1) == Marred(w, gaps, g) + Hit(w, gaps, g)
  {
    hide Hit;
  }

  lemma StoreSame(q: seq<Message>, s: nat)
    requires s < |q|
    ensures q[s := q[s]] == q
  {
  }

  /** Interrupts that enqueue after `g` gaps cover what was stored behind the last request. */
  lemma Overlaid(q: seq<Message>, n: nat, w: Wanted, gaps: Gaps, g: nat, b: nat)
    requires Schedule(w, gaps) && |q| == SLOW_SIZE && g <= 2 * w.Stores() && g / 2 <= b <= w.Stores()
    requires gaps[g] != [] && |Flat(gaps[..g])| + |gaps[g]| < SLOW_SIZE
    ensures |Flat(gaps[..g + 1])| == |Flat(gaps[..g])| + |gaps[g]|
    ensures var ms, p := Marred(w, gaps, g) + gaps[g], n + |Flat(gaps[..g])|;
            && Lay(Patched(q, n, w, gaps, g, b), p, gaps[g]) == Lay(q, n, ms)
            && Lay(q, n, ms)[Slot(p + |gaps[g]|, SLOW_SIZE)] == q[Slot(p + |gaps[g]|, SLOW_SIZE)]
  {
    hide PutRange, Slot, Lay, Marred;
    var p := n + |Flat(gaps[..g])|;
    FlatMore(gaps, g);
    MarredLength(w, gaps, g);
    LayFirst(Lay(q, n, Marred(w, gaps, g)), p, gaps[g], Patched(q, n, w, gaps, g, b)[Slot(p, SLOW_SIZE)]);
    LayTwice(q, n, Marred(w, gaps, g), gaps[g]);
    LayFrame(q, n, Marred(w, gaps, g) + gaps[g]);
  }

  /** Interrupts between the read of the tail and the store it addresses: the store hits the first of theirs. */
  lemma BeforeStore(q: seq<Message>, n: nat, w: Wanted, gaps: Gaps, i: nat)
    requires Schedule(w, gaps) && |q| == SLOW_SIZE && i < w.Stores()
    requires |Flat(gaps[..2 * i + 1])| + |gaps[2 * i + 1]| < SLOW_SIZE
    ensures Flat(gaps[..2 * i + 2]) == Flat(gaps[..2 * i + 1]) + gaps[2 * i + 1]
    ensures var p := n + |Flat(gaps[..2 * i + 1])|;
            var s := Slot(p, SLOW_SIZE);
            var now := Lay(Patched(q, n, w, gaps, 2 * i + 1, i), p, gaps[2 * i + 1]);
            now[s := Put(now[s], w, i)] == Patched(q, n, w, gaps, 2 * i + 2, i + 1)
  {
    hide Slot, Lay, PutRange, Marred, Missed, Flat, Put;
    var g := 2 * i + 1;
    var p := n + |Flat(gaps[..g])|;
    FlatMore(gaps, g);
    GapOver(w, gaps, g);
    if gaps[g] != [] {
      var ms, laid := gaps[g], Lay(q, n, Marred(w, gaps, g));
      Overlaid(q, n, w, gaps, g, i);
      MarredLength(w, gaps, g);
      LayTwice(q, n, Marred(w, gaps, g), ms);
      LayTwice(q, n, Marred(w, gaps, g), Hit(w, gaps, g));
      LayHead(laid, p, ms, Put(ms[0], w, i));
      NoStores(q[Slot(p + |ms|, SLOW_SIZE)], w, i + 1);
      MarredLength(w, gaps, g + 1);
      LayFrame(q, n, Marred(w, gaps, g + 1));
      StoreSame(Lay(q, n, Marred(w, gaps, g + 1)), Slot(p + |ms|, SLOW_SIZE));
    } else {
      NothingLaid(Patched(q, n, w, gaps, g, i), p);
      OneMore(q[Slot(p, SLOW_SIZE)], w, Missed(gaps, g), i);
    }
  }

  lemma OneMore(x: Message, w: Wanted, a: nat, b: nat)
    requires w.Fits() && a <= b < w.Stores()
    ensures PutRange(x, w, a, b + 1) == Put(PutRange(x, w, a, b), w, b)
  {
    hide Put;
  }

  /** A store to the slot of the first item laid. */
  lemma {:induction false} LayHead(q: seq<Message>, at: nat, ms: seq<Message>, c: Message)
    requires |q| == SLOW_SIZE && ms != [] && |ms| < SLOW_SIZE
    ensures Lay(q, at, ms)[Slot(at, SLOW_SIZE)] == ms[0]
    ensures Lay(q, at, ms)[Slot(at, SLOW_SIZE) := c] == Lay(q, at, [c] + ms[1..])
    decreases |ms|
  {
    hide Slot;
    var all := [c] + ms[1..];
    if |ms| == 1 {
      assert all[..0] == [] && ms[..0] == [];
    } else {
      var init := ms[..|ms| - 1];
      LayHead(q, at, init, c);
      assert all[..|all| - 1] == [c] + init[1..];
      HeadAndTail(at, at + |ms| - 1, SLOW_SIZE);
    }
  }

  lemma NoStores(x: Message, w: Wanted, i: nat)
    requires w.Fits() && i <= w.Stores()
    ensures PutRange(x, w, i, i) == x
  {
  }

  lemma {:induction false} LayFirst(q: seq<Message>, at: nat, ms: seq<Message>, c: Message)
    requires |q| == SLOW_SIZE && ms != []
    ensures Lay(q[Slot(at, SLOW_SIZE) := c], at, ms) == Lay(q, at, ms)
    decreases |ms|
  {
    hide Slot;
    if |ms| > 1 {
      LayFirst(q, at, ms[..|ms| - 1], c);
    } else {
      assert ms[..0] == [];
    }
  }

  lemma {:induction false} LayTwice(q: seq<Message>, at: nat, ms: seq<Message>, more: seq<Message>)
    requires |q| == SLOW_SIZE
    ensures Lay(Lay(q, at, ms), at + |ms|, more) == Lay(q, at, ms + more)
    decreases |more|
  {
    hide Slot;
    if more == [] {
      assert ms + more == ms;
    } else {
      LayTwice(q, at, ms, more[..|more| - 1]);
      assert (ms + more)[..|ms + more| - 1] == ms + more[..|more| - 1];
    }
  }

  /** The slot behind the items laid is as it was. */
  lemma {:induction false} LayFrame(q: seq<Message>, at: nat, ms: seq<Message>)
    requires |q| == SLOW_SIZE && |ms| < SLOW_SIZE
    ensures forall k :: at + |ms| <= k < at + SLOW_SIZE ==>
              Lay(q, at, ms)[Slot(k, SLOW_SIZE)] == q[Slot(k, SLOW_SIZE)]
    decreases |ms|
  {
    hide Slot;
    if ms != [] {
      var init := ms[..|ms| - 1];
      LayFrame(q, at, init);
      forall k | at + |ms| <= k < at + SLOW_SIZE
        ensures Lay(q, at, ms)[Slot(k, SLOW_SIZE)] == q[Slot(k, SLOW_SIZE)]
      {
        HeadAndTail(at + |init|, k, SLOW_SIZE);
      }
    }
  }

  lemma FlatMore(gaps: Gaps, i: nat)
    requires i < |gaps|
    ensures Flat(gaps[..i + 1]) == Flat(gaps[..i]) + gaps[i]
  {
    assert gaps[..i + 1][..i] == gaps[..i];
  }

  /** A schedule without an overrun has none up to gap `i`. */
  lemma {:induction false} FlatGrows(gaps: Gaps, i: nat, n: nat)
    requires i <= n <= |gaps|
    ensures |Flat(gaps[..i])| <= |Flat(gaps[..n])|
    decreases n
  {
    if i < n {
      assert gaps[..n][..n - 1] == gaps[..n - 1];
      FlatGrows(gaps, i, n - 1);
    }
  }

  /** Before anything has happened. */
  lemma FlatNone(q: seq<Message>, n: nat, w: Wanted, gaps: Gaps)
    requires Schedule(w, gaps) && |q| == SLOW_SIZE
    ensures Flat(gaps[..0]) == [] && Patched(q, n, w, gaps, 0, 0) == q
  {
    hide Slot;
    assert gaps[..0] == [];
  }

  /** When all stores are done only the last interrupts and the tail are missing. */
  lemma AllPatched(q: seq<Message>, n: nat, w: Wanted, gaps: Gaps)
    requires Schedule(w, gaps) && |q| == SLOW_SIZE
    ensures SlotsLeft(q, n, w, gaps) ==
            Lay(Patched(q, n, w, gaps, 2 * w.Stores() + 1, w.Stores()), n + |Early(w, gaps)|, Late(w, gaps))
  {
    hide Slot, Lay, PutRange, Marred, Missed, Flat;
  }

  // ----- what that means for the queue -----

  /** Items put into a ring with room for them, one after the other. */
  lemma {:induction false} LayHolds(q: seq<Message>, h: seq<Message>, done: nat, ms: seq<Message>)
    requires Holds(q, h, done) && |q| == SLOW_SIZE && done <= |h| && |h| + |ms| < done + SLOW_SIZE
    ensures Holds(Lay(q, |h|, ms), h + ms, done)
    decreases |ms|
  {
    hide Slot;
    if ms == [] {
      assert h + ms == h;
    } else {
      var init, x := ms[..|ms| - 1], ms[|ms| - 1];
      LayHolds(q, h, done, init);
      Push(Lay(q, |h|, init), h + init, done, x);
      assert h + init + [x] == h + ms;
    }
  }

  /**
   * Nothing was lost, torn or overwritten: the ring, read from its head to its tail, holds what it
   * held, the requests `ms` of the interrupts in order, and then the request asked for.
   */
  ghost predicate Intact(q: seq<Message>, tail: nat, arrived: seq<Message>, done: nat, w: Wanted, ms: seq<Message>)
  {
    && |arrived| + |ms| + 1 < done + SLOW_SIZE && tail == Slot(|arrived| + |ms| + 1, SLOW_SIZE)
    && exists x :: Carries(x, w) && Holds(q, arrived + ms + [x], done)
  }

  /** The run described above leaves the queue intact. */
  ghost predicate Survives(q: seq<Message>, arrived: seq<Message>, done: nat, w: Wanted, gaps: Gaps)
    requires Schedule(w, gaps) && |q| == SLOW_SIZE
  {
    Intact(SlotsLeft(q, |arrived|, w, gaps), TailLeft(|arrived|, w, gaps), arrived, done, w,
           Early(w, gaps) + Late(w, gaps))
  }

  /**
   * Exactly when a run survives: no interrupt enqueued between the read and the write of the tail at the
   * end, the interrupts have left room, no store changed a request it hit, and what went elsewhere stands
   * in the final slot anyway.
   */
  lemma SurvivesExactly(q: seq<Message>, arrived: seq<Message>, done: nat, w: Wanted, gaps: Gaps)
    requires Schedule(w, gaps) && Holds(q, arrived, done) && |q| == SLOW_SIZE
    requires done <= |arrived| < done + SLOW_SIZE && !Overruns(|arrived| - done, w, gaps)
    ensures Survives(q, arrived, done, w, gaps) <==>
              && Late(w, gaps) == []
              && |arrived| - done + |Early(w, gaps)| + 1 < SLOW_SIZE
              && Untorn(w, gaps, 2 * w.Stores() + 1)
              && HasUpTo(q[Slot(|arrived| + |Early(w, gaps)|, SLOW_SIZE)], w, Missed(gaps, 2 * w.Stores() + 1))
  {
    hide Slot, Lay, PutRange, Has, Flat, Carries, Marred, Untorn, SlotsLeft, Landed, Missed;
    var early, late := Early(w, gaps), Late(w, gaps);
    var p := |arrived| + |early|;
    if late != [] {
      if p + |late| + 1 < done + SLOW_SIZE {
        HeadAndTail(p + 1, p + |late| + 1, SLOW_SIZE);
      }
    } else if p + 1 < done + SLOW_SIZE {
      assert early + late == early;
      InOrder(q, arrived, done, w, gaps);
    }
  }

  /** Without interrupts at the end and with room: what is read from the ring. */
  lemma InOrder(q: seq<Message>, arrived: seq<Message>, done: nat, w: Wanted, gaps: Gaps)
    requires Schedule(w, gaps) && Holds(q, arrived, done) && |q| == SLOW_SIZE && Late(w, gaps) == []
    requires done <= |arrived| && |arrived| + |Early(w, gaps)| + 1 < done + SLOW_SIZE
    ensures (exists x :: Carries(x, w) && Holds(SlotsLeft(q, |arrived|, w, gaps), arrived + Early(w, gaps) + [x], done))
            <==>
              && Untorn(w, gaps, 2 * w.Stores() + 1)
              && HasUpTo(q[Slot(|arrived| + |Early(w, gaps)|, SLOW_SIZE)], w, Missed(gaps, 2 * w.Stores() + 1))
  {
    hide Slot, Lay, Has, Flat, Carries, Marred, Untorn, Missed, PutRange;
    var g := 2 * w.Stores() + 1;
    var marred, early, x := Marred(w, gaps, g), Early(w, gaps), Landed(q, |arrived|, w, gaps);
    MarredLength(w, gaps, g);
    LayHolds(q, arrived, done, marred);
    Push(Lay(q, |arrived|, marred), arrived + marred, done, x);
    NothingLaid(Lay(q, |arrived|, marred)[Slot(|arrived| + |early|, SLOW_SIZE) := x], |arrived| + |early|);
    SameFlat(w, gaps, g);
    LandedCarries(q, |arrived|, w, gaps);
    var r := SlotsLeft(q, |arrived|, w, gaps);
    assert Holds(r, arrived + marred + [x], done);
    if y :| Carries(y, w) && Holds(r, arrived + early + [y], done) {
      SameReading(r, arrived, done, marred + [x], early + [y]);
      assert marred == (marred + [x])[..|marred|] == (early + [y])[..|early|] == early;
      assert x == (marred + [x])[|marred|] == (early + [y])[|early|] == y;
    }
  }

  lemma LandedCarries(q: seq<Message>, n: nat, w: Wanted, gaps: Gaps)
    requires Schedule(w, gaps) && |q| == SLOW_SIZE
    ensures Carries(Landed(q, n, w, gaps), w) <==>
            HasUpTo(q[Slot(n + |Early(w, gaps)|, SLOW_SIZE)], w, Missed(gaps, 2 * w.Stores() + 1))
  {
    hide Slot, Has, Flat, Carries, Missed, PutRange;
    CarriesAll(Landed(q, n, w, gaps), w);
  }

  lemma NothingLaid(q: seq<Message>, at: nat)
    requires |q| == SLOW_SIZE
    ensures Lay(q, at, []) == q
  {
  }

  /** Two readings of one ring from the same item on agree. */
  lemma SameReading(q: seq<Message>, h: seq<Message>, done: nat, a: seq<Message>, b: seq<Message>)
    requires done <= |h| && |a| == |b| && Holds(q, h + a, done) && Holds(q, h + b, done)
    ensures a == b
  {
    hide Slot;
    forall i | 0 <= i < |a| ensures a[i] == b[i] {
      assert (h + a)[|h| + i] == (h + b)[|h| + i];
    }
  }

  /** The requests of the interrupts are as they were exactly when no store changed one. */
  lemma {:induction false} SameFlat(w: Wanted, gaps: Gaps, g: nat)
    requires Schedule(w, gaps) && g <= 2 * w.Stores() + 1
    ensures Marred(w, gaps, g) == Flat(gaps[..g]) <==> Untorn(w, gaps, g)
    decreases g
  {
    if g == 0 {
      assert gaps[..0] == [];
    } else {
      hide Hit, Marred, Flat, Untorn;
      SameFlat(w, gaps, g - 1);
      FlatMore(gaps, g - 1);
      MarredMore(w, gaps, g - 1);
      MarredLength(w, gaps, g - 1);
      UntornMore(w, gaps, g - 1);
      ConcatSame(Marred(w, gaps, g - 1), Hit(w, gaps, g - 1), Flat(gaps[..g - 1]), gaps[g - 1]);
    }
  }

  lemma UntornMore(w: Wanted, gaps: Gaps, g: nat)
    requires Schedule(w, gaps) && g <= 2 * w.Stores()
    ensures Untorn(w, gaps, g + 1) <==> Untorn(w, gaps, g) && Hit(w, gaps, g) == gaps[g]
  {
    hide Hit;
  }

  lemma ConcatSame(a: seq<Message>, x: seq<Message>, b: seq<Message>, y: seq<Message>)
    requires |a| == |b|
    ensures a + x == b + y <==> a == b && x == y
  {
    if a + x == b + y {
      assert a == (a + x)[..|a|] && b == (b + y)[..|b|] && x == (a + x)[|a|..] && y == (b + y)[|b|..];
    }
  }

  /** A store leaves a request as it is exactly when what it stores stands there. */
  lemma HitChanges(w: Wanted, gaps: Gaps, i: nat)
    requires Schedule(w, gaps) && i < w.Stores()
    ensures Hit(w, gaps, 2 * i) == gaps[2 * i]
    ensures Hit(w, gaps, 2 * i + 1) == gaps[2 * i + 1] <==>
            gaps[2 * i + 1] == [] || Has(gaps[2 * i + 1][0], w, i)
  {
    var ms := gaps[2 * i + 1];
    if ms != [] {
      PutSame(ms[0], w, i);
      assert ms == [ms[0]] + ms[1..];
      assert Hit(w, gaps, 2 * i + 1)[0] == Put(ms[0], w, i);
    }
  }

  lemma PutSame(x: Message, w: Wanted, i: nat)
    requires w.Fits() && i < w.Stores()
    ensures Put(x, w, i) == x <==> Has(x, w, i)
  {
    if Has(x, w, i) && i >= 4 {
      assert x.args[i - 4 := w.args[i - 4]] == x.args;
    }
  }

  /** The schedules that can happen: none of the gaps is filled while interrupts are masked. */
  predicate Allowed(masked: bool, w: Wanted, gaps: Gaps) {
    Schedule(w, gaps) && (masked ==> forall i :: 0 <= i < |gaps| ==> gaps[i] == [])
  }

  /**
   * What a caller can do about it: whatever the queue holds, as long as the caller finds room, every
   * schedule without an overrun survives if and only if interrupts are masked.
   */
  lemma MaskingDecides(q: seq<Message>, arrived: seq<Message>, done: nat, w: Wanted, masked: bool)
    requires w.Fits() && Holds(q, arrived, done) && |q| == SLOW_SIZE
    requires done <= |arrived| && |arrived| + 1 < done + SLOW_SIZE
    ensures masked <==>
              forall gaps :: Allowed(masked, w, gaps) && !Overruns(|arrived| - done, w, gaps) ==>
                Survives(q, arrived, done, w, gaps)
  {
    hide Survives, Put, PutRange, Missed, Flat;
    var g := 2 * w.Stores() + 1;
    if masked {
      forall gaps | Allowed(masked, w, gaps) && !Overruns(|arrived| - done, w, gaps)
        ensures Survives(q, arrived, done, w, gaps)
      {
        Undisturbed(gaps, g);
        SurvivesExactly(q, arrived, done, w, gaps);
      }
    } else {
      var gaps := Undisturbing(g) + [[q[0]]];
      Undisturbed(gaps, g);
      SurvivesExactly(q, arrived, done, w, gaps);
      assert Allowed(masked, w, gaps) && !Overruns(|arrived| - done, w, gaps);
    }
  }

  /** Gaps without interrupts. */
  function Undisturbing(n: nat): (gaps: Gaps)
    ensures |gaps| == n && forall i :: 0 <= i < n ==> gaps[i] == []
  {
    seq(n, _ => [])
  }

  lemma {:induction false} Undisturbed(gaps: Gaps, n: nat)
    requires n <= |gaps| && forall i :: 0 <= i < n ==> gaps[i] == []
    ensures Flat(gaps[..n]) == [] && Missed(gaps, n) == 0
    decreases n
  {
    if n > 0 {
      FlatMore(gaps, n - 1);
      Undisturbed(gaps, n - 1);
    } else {
      assert gaps[..0] == [];
    }
  }

  /** One interrupt between the read and the write of the tail, and the request is gone. */
  lemma LostToInterrupt(blank: Message, r: Message)
    requires r.code == Code(IPC_SLOW, 0, 0)
    ensures var q, w := seq(SLOW_SIZE, _ => blank), Wanted(6, 0, []);
            var gaps: Gaps := Undisturbing(9) + [[r]];
            && Allowed(false, w, gaps) && !Overruns(0, w, gaps) && !Survives(q, [], 0, w, gaps)
            && SlotsLeft(q, 0, w, gaps) == q[0 := r] && TailLeft(0, w, gaps) == 1 && !Carries(r, w)
  {
    hide PutRange, Put, Missed, Flat, Survives;
    var q, w := seq(SLOW_SIZE, _ => blank), Wanted(6, 0, []);
    var gaps: Gaps := Undisturbing(9) + [[r]];
    Undisturbed(gaps, 9);
    SurvivesExactly(q, [], 0, w, gaps);
    MarredLength(w, gaps, 9);
    var x := Landed(q, 0, w, gaps);
    NothingLaid(q, 0);
    NothingLaid(q[0 := x], 0);
    assert [r][..0] == [];
    assert Lay(q[0 := x], 0, [r]) == Lay(q[0 := x], 0, [])[0 := r] == q[0 := r];
  }

  /** One interrupt between the read of the tail and the first store, and its own request is torn. */
  lemma TornByStore(blank: Message, r: Message)
    requires r.code == Code(1, 0, 0)
    ensures var q, w := seq(SLOW_SIZE, _ => blank), Wanted(6, 0, []);
            var gaps: Gaps := [[], [r]] + Undisturbing(8);
            && Allowed(false, w, gaps) && !Overruns(0, w, gaps) && !Survives(q, [], 0, w, gaps)
            && Hit(w, gaps, 1) == [r.(code := Code(IPC_SLOW, 0, 0))]
  {
    hide PutRange, Missed, Flat, Survives;
    var q, w := seq(SLOW_SIZE, _ => blank), Wanted(6, 0, []);
    var gaps: Gaps := [[], [r]] + Undisturbing(8);
    FlatMore(gaps, 0);
    FlatMore(gaps, 1);
    QuietTail(gaps, 2, 9);
    FlatNone(q, 0, w, gaps);
    SurvivesExactly(q, [], 0, w, gaps);
    assert Hit(w, gaps, 1)[0] != gaps[1][0];
  }

  lemma {:induction false} QuietTail(gaps: Gaps, g: nat, n: nat)
    requires g <= n <= |gaps| && forall k :: g <= k < n ==> gaps[k] == []
    ensures Flat(gaps[..n]) == Flat(gaps[..g])
    decreases n
  {
    if g < n {
      FlatMore(gaps, n - 1);
      QuietTail(gaps, g, n - 1);
    }
  }

  /** When interrupts take the last room after the test, the ring afterwards reads as empty. */
  lemma FilledReadsEmpty(arrived: seq<Message>, done: nat, w: Wanted, gaps: Gaps)
    requires Schedule(w, gaps) && done <= |arrived|
    requires |arrived| - done + |Early(w, gaps)| + 1 == SLOW_SIZE
    ensures TailLeft(|arrived|, w, gaps) == Slot(done, SLOW_SIZE)
  {
    assert (done + 128) % 128 == done % 128;
  }
}
