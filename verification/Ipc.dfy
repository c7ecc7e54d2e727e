/**
 * Inter-processor communication: a ring of requests from the PPC, a ring of replies to it, and a slow
 * queue from interrupt context to the main loop. The other processor may act between any two
 * accesses of this one (`Ppc`), and between any two accesses of the main loop interrupts are taken as
 * well unless they are masked (`Tick`). The interrupt handlers run with interrupts masked.
 */
module Ipc {
  import opened Ring
  import opened Requests

  const IN_SIZE := 32
  const OUT_SIZE := 32

  const IPC_FAST := 1
  const DEV_SYS := 0
  const SYS_PING := 0
  const SYS_JUMP := 1
  const SYS_GETVERS := 2
  const SYS_GETGITS := 3
  const SYS_READ32 := 0x103
  const SYS_READ16 := 0x104
  const SYS_READ8 := 0x105
  const VERSION := 0x1_0003

  const HALF := 0x1_0000

  predicate Fast(m: Message) { m.code.flags % 2 == IPC_FAST }

  /** A slot after a message with these arguments is stored in it: further arguments keep old values. */
  function Stored(slot: Message, code: Code, tag: Word, args: seq<Word>): (m: Message)
    requires |args| <= 6
    ensures m.code == code && m.tag == tag && args <= m.args
  {
    Message(code, tag, args + slot.args[|args|..])
  }

  /** Two indices in one message register. */
  function Pack(hi: nat, lo: nat): (w: nat)
    requires hi < HALF && lo < HALF
    ensures w == 0x1_0000 * hi + lo && Hi(w) == hi && Lo(w) == lo
  {
    hi * HALF + lo
  }

  function Hi(w: nat): (h: nat) { w / HALF }

  function Lo(w: nat): (l: nat)
    ensures l < HALF
  {
    w % HALF
  }

  /** The slow requests among the messages of the PPC, in order. */
  ghost function SlowPart(s: seq<Message>): (r: seq<Message>) {
    if s == [] then []
    else SlowPart(s[..|s| - 1]) + if Fast(s[|s| - 1]) then [] else [s[|s| - 1]]
  }

  /** The items of `s` whose mark is set. */
  ghost function Marked(s: seq<Message>, marks: seq<bool>): (r: seq<Message>)
    requires |s| <= |marks|
  {
    if s == [] then []
    else Marked(s[..|s| - 1], marks) + if marks[|s| - 1] then [s[|s| - 1]] else []
  }

  lemma SlowPartNext(s: seq<Message>, k: nat)
    requires k < |s|
    ensures SlowPart(s[..k + 1]) == SlowPart(s[..k]) + if Fast(s[k]) then [] else [s[k]]
  {
    assert s[..k + 1][..k] == s[..k];
  }

  lemma MarkedNext(s: seq<Message>, marks: seq<bool>, m: Message, mark: bool)
    requires |s| == |marks|
    ensures Marked(s + [m], marks + [mark]) == Marked(s, marks) + if mark then [m] else []
  {
    assert (s + [m])[..|s|] == s;
    MarkedFrame(s, marks, marks + [mark]);
  }

  lemma {:induction false} MarkedFrame(s: seq<Message>, marks: seq<bool>, more: seq<bool>)
    requires |s| <= |marks| && marks <= more
    ensures Marked(s, marks) == Marked(s, more)
  {
    if s != [] {
      MarkedFrame(s[..|s| - 1], marks, more);
    }
  }

  lemma {:induction false} MarkedPrefix(s: seq<Message>, marks: seq<bool>, k: nat)
    requires k <= |s| <= |marks|
    ensures Marked(s[..k], marks) <= Marked(s, marks)
    decreases |s|
  {
    if k == |s| {
      assert s[..k] == s;
    } else {
      var t := s[..|s| - 1];
      MarkedPrefix(t, marks, k);
      assert t[..k] == s[..k];
    }
  }

  lemma {:induction false} SlowPartPrefix(s: seq<Message>, k: nat)
    requires k <= |s|
    ensures SlowPart(s[..k]) <= SlowPart(s)
    decreases |s|
  {
    if k == |s| {
      assert s[..k] == s;
    } else {
      var t := s[..|s| - 1];
      SlowPartPrefix(t, k);
      assert t[..k] == s[..k];
    }
  }

  class System {
    const inQueue: array<Message>
    const outQueue: array<Message>
    const slowQueue: array<Message>
    var slowHead: nat
    var slowTail: nat
    var inHead: nat
    var outTail: nat
    var armMsg: nat       // in_head above, out_tail below
    var ppcMsg: nat       // the PPC's out_head above, its in_tail below
    var bell: bool        // the PPC has rung (IPC_CTRL_IN)
    var irqOn: bool
    var panicked: bool

    /** How many more requests the outside world will make. */
    var budget: nat

    /** The PPC has published a request it has not rung for yet. */
    var ringing: bool

    ghost var posted: seq<Message>     // by the PPC
    ghost var taken: nat               // of them, consumed
    ghost var shown: nat               // of them, reported as consumed
    ghost var moved: nat               // of them, acted upon
    ghost var replies: seq<Message>    // to the PPC
    ghost var offered: nat             // of them, published
    ghost var seen: nat                // of them, consumed
    ghost var received: seq<Message>   // what the PPC read
    ghost var arrived: seq<Message>    // in the slow queue
    ghost var fromPpc: seq<bool>       // whether each of them came from the PPC
    ghost var done: nat                // of them, removed
    ghost var processed: seq<Message>  // what the main loop handled
    ghost var draining: bool           // the handler is between the ring it answered and its last look

    /** `ipc_initialize`. */
    constructor (budget: nat)
      ensures Valid() && Idle() && this.budget == budget && posted == arrived == replies == []
      ensures fresh(inQueue) && fresh(outQueue) && fresh(slowQueue)
    {
      var blank := Message(Code(0, 0, 0), 0, [0, 0, 0, 0, 0, 0]);
      inQueue, outQueue := new Message[IN_SIZE](_ => blank), new Message[OUT_SIZE](_ => blank);
      slowQueue := new Message[SLOW_SIZE](_ => blank);
      slowHead, slowTail, inHead, outTail, armMsg, ppcMsg := 0, 0, 0, 0, 0, 0;
      bell, irqOn, panicked, ringing, draining := false, true, false, false, false;
      this.budget := budget;
      taken, shown, moved, offered, seen, done := 0, 0, 0, 0, 0, 0;
      posted, replies, received, arrived, fromPpc, processed := [], [], [], [], [], [];
    }

    ghost predicate Distinct() {
      && inQueue != outQueue && outQueue != slowQueue && inQueue != slowQueue
      && inQueue.Length == IN_SIZE && outQueue.Length == OUT_SIZE && slowQueue.Length == SLOW_SIZE
    }

    /** The registers and indices stand for positions in the histories. */
    ghost predicate Indexed()
      reads `slowHead, `slowTail, `inHead, `outTail, `armMsg, `ppcMsg, `posted, `taken, `shown, `moved
      reads `replies, `offered, `seen, `arrived, `done
    {
      && inHead == Slot(taken, IN_SIZE) && outTail == Slot(|replies|, OUT_SIZE)
      && slowHead == Slot(done, SLOW_SIZE) && slowTail == Slot(|arrived|, SLOW_SIZE)
      && armMsg == Pack(Slot(shown, IN_SIZE), Slot(offered, OUT_SIZE))
      && ppcMsg == Pack(Slot(seen, OUT_SIZE), Slot(|posted|, IN_SIZE))
      && shown <= taken <= shown + 1 && taken <= moved <= taken + 1 && moved <= |posted| < shown + IN_SIZE
      && seen <= offered <= |replies| <= offered + 1 && |replies| < seen + OUT_SIZE
      && done <= |arrived| < done + SLOW_SIZE
    }

    /** No request of the PPC is overwritten before it is consumed. */
    ghost predicate InFaithful()
      reads `posted, `taken, inQueue
    {
      inQueue.Length == IN_SIZE && Holds(inQueue[..], posted, taken)
    }

    /** No reply is overwritten before the PPC read it, and the PPC reads them all in order. */
    ghost predicate OutFaithful()
      reads `replies, `seen, `received, outQueue
    {
      && outQueue.Length == OUT_SIZE && Holds(outQueue[..], replies, seen)
      && seen <= |replies| && received == replies[..seen]
    }

    /** No slow request is overwritten before it is handled, and all are handled in order of arrival. */
    ghost predicate SlowFaithful()
      reads `arrived, `done, `processed, slowQueue
    {
      && slowQueue.Length == SLOW_SIZE && Holds(slowQueue[..], arrived, done)
      && done <= |arrived| && processed == arrived[..done]
    }

    /** What the PPC put into the slow queue are its slow requests, each once and in order. */
    ghost predicate Complete()
      reads `posted, `moved, `arrived, `fromPpc
    {
      && |fromPpc| == |arrived| && moved <= |posted|
      && Marked(arrived, fromPpc) == SlowPart(posted[..moved])
    }

    /** A request the handler has not consumed has rung, will ring, or will be seen by the drain loop. */
    ghost predicate Signalled()
      reads `posted, `taken, `bell, `ringing, `draining
    {
      |posted| > taken ==> bell || ringing || draining
    }

    ghost predicate Valid()
      reads `slowHead, `slowTail, `inHead, `outTail, `armMsg, `ppcMsg, `posted, `taken, `shown, `moved
      reads `replies, `offered, `seen, `arrived, `done, `received, `fromPpc, `processed
      reads `bell, `ringing, `draining, inQueue, outQueue, slowQueue
    {
      && Distinct() && Indexed() && Signalled()
      && InFaithful() && OutFaithful() && SlowFaithful() && Complete()
    }

    /** Both indices are published, and no request is half handled. */
    ghost predicate Settled()
      reads `taken, `shown, `moved, `replies, `offered
    {
      shown == taken == moved && offered == |replies|
    }

    // ----- the PPC -----

    /** Store a request in the slot behind the last one and publish it, if the ring shows room. */
    method PpcRequest(m: Message)
      requires Valid()
      modifies `ppcMsg, `ringing, `budget, `posted, inQueue
      ensures Valid() && Calmer(old(budget), old(ringing), old(bell), old(|posted|))
      ensures old(posted) <= posted
    {
      hide Slot, Pack, Hi, Lo, SlowPart, Marked, Holds, System.OutFaithful, System.SlowFaithful;
      var tail := Lo(ppcMsg);
      HeadAndTail(shown, |posted|, IN_SIZE);
      if budget > 0 && Hi(armMsg) != Advance(tail, IN_SIZE) {
        Push(inQueue[..], posted, taken, m);
        SlotNext(|posted|, IN_SIZE);
        assert (posted + [m])[..moved] == posted[..moved];
        inQueue[tail] := m;
        ppcMsg := Pack(Hi(ppcMsg), Advance(tail, IN_SIZE));
        posted := posted + [m];
        ringing, budget := true, budget - 1;
      }
    }

    method PpcRing()
      requires Valid()
      modifies `bell, `ringing
      ensures Valid() && Calmer(old(budget), old(ringing), old(bell), old(|posted|))
    {
      hide Slot, Pack, Hi, Lo, SlowPart, Marked;
      hide Holds, System.InFaithful, System.OutFaithful, System.SlowFaithful, System.Complete;
      if ringing {
        bell, ringing := true, false;
      }
    }

    /** Take one reply, if one is published. */
    method PpcReply()
      requires Valid()
      modifies `ppcMsg, `seen, `received
      ensures Valid()
      ensures seen == if old(seen) < offered then old(seen) + 1 else old(seen)
    {
      hide Slot, Pack, Hi, Lo, SlowPart, Marked, Holds, System.InFaithful, System.SlowFaithful, System.Complete;
      var head := Hi(ppcMsg);
      HeadAndTail(seen, offered, OUT_SIZE);
      if head != Lo(armMsg) {
        Take(outQueue[..], replies, seen);
        SlotNext(seen, OUT_SIZE);
        received := received + [outQueue[head]];
        seen := seen + 1;
        ppcMsg := Pack(Advance(head, OUT_SIZE), Lo(ppcMsg));
      }
    }

    /** What is still to come has not grown. */
    ghost predicate Calmer(budget0: nat, ringing0: bool, bell0: bool, posted0: nat)
      reads `budget, `ringing, `bell, `posted
    {
      && Pending(budget, ringing, bell) <= Pending(budget0, ringing0, bell0)
      && budget + |posted| == budget0 + posted0
    }

    ghost function Pending(b: nat, r: bool, d: bool): nat {
      2 * b + (if r then 1 else 0) + if d then 1 else 0
    }

    /** The PPC does anything it likes for a while. */
    method Ppc()
      requires Valid()
      modifies `ppcMsg, `bell, `ringing, `budget, `posted, `seen, `received, inQueue
      ensures Valid() && Calmer(old(budget), old(ringing), old(bell), old(|posted|))
      ensures old(posted) <= posted && old(seen) <= seen
    {
      hide System.Valid;
      var turns: nat := *;
      while turns > 0
        invariant Valid() && Calmer(old(budget), old(ringing), old(bell), old(|posted|))
        invariant old(posted) <= posted && old(seen) <= seen
      {
        var act: nat := *;
        if act % 3 == 0 {
          var m: Message := *;
          PpcRequest(m);
        } else if act % 3 == 1 {
          PpcRing();
        } else {
          PpcReply();
        }
        turns := turns - 1;
      }
    }

    // ----- one step of time -----

    /**
     * The time between two accesses: the PPC acts and, with interrupts enabled, any number of them are
     * taken. Their handlers rely on nothing being half done.
     */
    method Tick()
      requires Valid() && (irqOn ==> Idle())
      modifies `ppcMsg, `bell, `ringing, `budget, `posted, `seen, `received, inQueue
      modifies if irqOn then {this, outQueue, slowQueue} else {}
      ensures Valid()
      ensures !old(irqOn) ==>
                && Calmer(old(budget), old(ringing), old(bell), old(|posted|))
                && old(posted) <= posted && old(seen) <= seen
      ensures old(irqOn) ==>
                && unchanged(`slowHead, `done, `processed) && Load() <= old(Load())
                && old(arrived) <= arrived && old(replies) <= replies
                && (if panicked then |arrived| + 1 == done + SLOW_SIZE else Idle())
      decreases irqOn, 0
    {
      hide System.Indexed, System.Signalled, System.InFaithful, System.OutFaithful, System.SlowFaithful;
      hide System.Complete;
      if irqOn {
        Breathe();
      } else {
        Ppc();
      }
    }

    // ----- replies -----

    /** Nothing of interrupt context is under way: both indices are published. */
    ghost predicate Published()
      reads `replies, `offered
    {
      offered == |replies|
    }

    /** `ipc_post`: queue a reply and publish it, waiting for the PPC while the ring is full. */
    method Post(code: Code, tag: Word, args: seq<Word>)
      requires Valid() && Published() && |args| <= 6
      modifies `ppcMsg, `bell, `ringing, `budget, `posted, `seen, `received, inQueue
      modifies `irqOn, `armMsg, `outTail, `offered, `replies, outQueue
      ensures Valid() && Published() && Calmer(old(budget), old(ringing), old(bell), old(|posted|))
      ensures old(posted) <= posted && irqOn == old(irqOn)
      ensures |replies| == |old(replies)| + 1 && old(replies) <= replies
      ensures var m := replies[|replies| - 1]; m.code == code && m.tag == tag && args <= m.args
      decreases irqOn, 4
    {
      hide System.Valid;
      var cookie := irqOn;
      irqOn := false;
      WaitForRoom();
      Fill(code, tag, args);
      Queue();
      Tick();
      PokeOutTail();
      irqOn := cookie;
    }

    /** `ipc_post`: the wait; the PPC is taken to read at least one reply per turn of the loop. */
    method WaitForRoom()
      requires Valid() && Published() && !irqOn
      modifies `ppcMsg, `bell, `ringing, `budget, `posted, `seen, `received, inQueue
      ensures Valid() && Calmer(old(budget), old(ringing), old(bell), old(|posted|))
      ensures old(posted) <= posted && |replies| + 1 < seen + OUT_SIZE
      decreases irqOn, 3
    {
      hide Slot, Pack, Hi, Lo, System.InFaithful, System.OutFaithful, System.SlowFaithful, System.Complete;
      hide System.Signalled, Advance;
      Tick();
      HeadAndTail(seen, |replies|, OUT_SIZE);
      while Hi(ppcMsg) == Advance(outTail, OUT_SIZE)
        invariant Valid() && Calmer(old(budget), old(ringing), old(bell), old(|posted|))
        invariant old(posted) <= posted
        invariant Hi(ppcMsg) == Advance(outTail, OUT_SIZE) <==> |replies| + 1 == seen + OUT_SIZE
        decreases |replies| - seen
      {
        Tick();
        PpcReply();
        HeadAndTail(seen, |replies|, OUT_SIZE);
      }
    }

    /** `ipc_post`: fill the slot behind the last reply, word by word. */
    method Fill(code: Code, tag: Word, args: seq<Word>)
      requires Valid() && |args| <= 6 && |replies| + 1 < seen + OUT_SIZE && !irqOn
      modifies `ppcMsg, `bell, `ringing, `budget, `posted, `seen, `received, inQueue
      modifies outQueue
      ensures Valid() && Calmer(old(budget), old(ringing), old(bell), old(|posted|)) && old(posted) <= posted
      ensures |replies| + 1 < seen + OUT_SIZE && outTail < OUT_SIZE == outQueue.Length
      ensures var m := outQueue[outTail]; m.code == code && m.tag == tag && args <= m.args
      decreases irqOn, 3
    {
      hide Slot, Pack, Hi, Lo, System.InFaithful, System.OutFaithful, System.SlowFaithful, System.Complete;
      hide System.Signalled;
      PutReply(outQueue[outTail].(code := code));
      Tick();
      PutReply(outQueue[outTail].(tag := tag));
      Tick();
      var k := 0;
      while k < |args|
        invariant 0 <= k <= |args| && Valid() && Calmer(old(budget), old(ringing), old(bell), old(|posted|))
        invariant old(posted) <= posted && |replies| + 1 < seen + OUT_SIZE
        invariant outTail < OUT_SIZE == outQueue.Length
        invariant outQueue[outTail].code == code && outQueue[outTail].tag == tag
        invariant args[..k] <= outQueue[outTail].args
      {
        var a := outQueue[outTail].args;
        PutReply(outQueue[outTail].(args := a[k := args[k]]));
        Tick();
        k := k + 1;
      }
      assert args[..k] == args;
    }

    /** A store to the slot behind the last reply, which holds nothing yet. */
    method PutReply(m: Message)
      requires Valid() && |replies| + 1 < seen + OUT_SIZE
      modifies outQueue
      ensures Valid() && outTail < OUT_SIZE == outQueue.Length && outQueue[outTail] == m
    {
      hide Pack, Hi, Lo, System.InFaithful, System.SlowFaithful, System.Complete, System.Signalled;
      hide Holds, Slot;
      Spare(outQueue[..], replies, seen, m);
      outQueue[outTail] := m;
    }

    /** `ipc_post`: advance the tail. */
    method Queue()
      requires Valid() && Published() && |replies| + 1 < seen + OUT_SIZE
      modifies `outTail, `replies
      ensures Valid() && outTail < OUT_SIZE == outQueue.Length
      ensures old(outTail) < OUT_SIZE && replies == old(replies) + [outQueue[old(outTail)]]
    {
      hide Slot, Pack, Hi, Lo, System.InFaithful, System.SlowFaithful, System.Complete, System.Signalled;
      hide Holds;
      Push(outQueue[..], replies, seen, outQueue[outTail]);
      assert outQueue[..][outTail := outQueue[outTail]] == outQueue[..];
      SlotNext(|replies|, OUT_SIZE);
      replies := replies + [outQueue[outTail]];
      outTail := Advance(outTail, OUT_SIZE);
    }

    /** `poke_outtail`: read, change and write back one half of the register. */
    method PokeOutTail()
      requires Valid() && !irqOn
      modifies `ppcMsg, `bell, `ringing, `budget, `posted, `seen, `received, inQueue
      modifies `armMsg, `offered
      ensures Valid() && Published() && Calmer(old(budget), old(ringing), old(bell), old(|posted|))
      ensures old(posted) <= posted
      decreases irqOn, 3
    {
      hide Slot, Pack, Hi, Lo, System.InFaithful, System.OutFaithful, System.SlowFaithful, System.Complete;
      hide System.Signalled;
      var num := outTail;
      Tick();
      var x := armMsg;
      Tick();
      armMsg := Pack(Hi(x), num);
      offered := |replies|;
    }

    /** `poke_inhead`. */
    method PokeInHead()
      requires Valid()
      modifies `ppcMsg, `bell, `ringing, `budget, `posted, `seen, `received, inQueue
      modifies `armMsg, `shown
      ensures Valid() && shown == taken && Calmer(old(budget), old(ringing), old(bell), old(|posted|))
      ensures old(posted) <= posted
    {
      hide Slot, Pack, Hi, Lo, System.InFaithful, System.OutFaithful, System.SlowFaithful, System.Complete;
      hide System.Signalled;
      var x := armMsg;
      Ppc();
      armMsg := Pack(inHead, Lo(x));
      shown := taken;
    }

    // ----- interrupt context -----

    /** Put a message into the slow queue, or panic when it is full. */
    method PushSlow(m: Message, ghost mark: bool)
      requires Valid() && !panicked && (mark ==> taken == moved < |posted| && !Fast(m) && m == posted[moved])
      modifies `slowTail, `arrived, `fromPpc, `moved, `panicked, slowQueue
      ensures Valid()
      ensures panicked <==> old(|arrived|) + 1 == done + SLOW_SIZE
      ensures panicked ==> arrived == old(arrived) && moved == old(moved)
      ensures !panicked ==> arrived == old(arrived) + [m] && moved == if mark then old(moved) + 1 else old(moved)
    {
      hide Slot, Pack, Hi, Lo, System.InFaithful, System.OutFaithful, System.SlowFaithful, System.Signalled;
      hide System.Complete;
      HeadAndTail(done, |arrived|, SLOW_SIZE);
      if slowHead == Advance(slowTail, SLOW_SIZE) {
        panicked := true;
        return;
      }
      AppendSlow(m, mark);
    }

    /** Fill the tail slot of a slow queue that has room, and advance the tail. */
    method AppendSlow(m: Message, ghost mark: bool)
      requires Valid() && |arrived| + 1 < done + SLOW_SIZE
      requires mark ==> taken == moved < |posted| && !Fast(m) && m == posted[moved]
      modifies `slowTail, `arrived, `fromPpc, `moved, slowQueue
      ensures Valid() && arrived == old(arrived) + [m] && moved == if mark then old(moved) + 1 else old(moved)
    {
      hide Slot, Pack, Hi, Lo, System.InFaithful, System.OutFaithful, System.Signalled;
      hide Holds, SlowPart, Marked;
      Push(slowQueue[..], arrived, done, m);
      SlotNext(|arrived|, SLOW_SIZE);
      MarkedNext(arrived, fromPpc, m, mark);
      assert (arrived + [m])[..done] == arrived[..done];
      if mark {
        SlowPartNext(posted, moved);
        moved := moved + 1;
      }
      slowQueue[slowTail] := m;
      arrived, fromPpc := arrived + [m], fromPpc + [mark];
      slowTail := Advance(slowTail, SLOW_SIZE);
    }

    /** `ipc_enqueue_slow`, in interrupt context. */
    method EnqueueSlow(device: nat, req: nat, args: seq<Word>)
      requires Valid() && !panicked && |args| <= 6
      modifies `slowTail, `arrived, `fromPpc, `moved, `panicked, slowQueue
      ensures Valid() && moved == old(moved)
      ensures panicked <==> old(|arrived|) + 1 == done + SLOW_SIZE
      ensures panicked ==> arrived == old(arrived)
      ensures !panicked ==>
                && |arrived| == |old(arrived)| + 1 && old(arrived) <= arrived
                && var m := arrived[|arrived| - 1];
                   m.code == Code(IPC_SLOW, device, req) && m.tag == 0 && args <= m.args
    {
      hide Stored, System.InFaithful, System.OutFaithful, System.SlowFaithful, System.Complete, Slot;
      PushSlow(Stored(slowQueue[slowTail], Code(IPC_SLOW, device, req), 0, args), false);
    }

    /** Interrupts enqueue `ms`; `n` requests have arrived so far. */
    method Arrive(ms: seq<Message>, ghost n: nat) returns (overrun: bool)
      requires Distinct() && slowHead == Slot(done, SLOW_SIZE) && slowTail == Slot(n, SLOW_SIZE)
      requires done <= n < done + SLOW_SIZE
      modifies `slowTail, slowQueue
      ensures overrun == (n + |ms| >= done + SLOW_SIZE)
      ensures !overrun ==>
                slowTail == Slot(n + |ms|, SLOW_SIZE) && slowQueue[..] == Lay(old(slowQueue[..]), n, ms)
    {
      hide Slot;
      var i := 0;
      ghost var q := slowQueue[..];
      assert ms[..0] == [];
      while i < |ms|
        invariant 0 <= i <= |ms| && n + i < done + SLOW_SIZE && slowTail == Slot(n + i, SLOW_SIZE)
        invariant slowQueue[..] == Lay(q, n, ms[..i])
      {
        HeadAndTail(done, n + i, SLOW_SIZE);
        if slowHead == Advance(slowTail, SLOW_SIZE) {
          return true;
        }
        SlotNext(n + i, SLOW_SIZE);
        assert ms[..i + 1][..i] == ms[..i];
        slowQueue[slowTail] := ms[i];
        slowTail := Advance(slowTail, SLOW_SIZE);
        i := i + 1;
      }
      assert ms[..i] == ms;
      return false;
    }

    /**
     * `ipc_enqueue_slow` in the main loop, with interrupts enqueueing `gaps[g]` in gap `g`: the tail is
     * read anew for every store.
     */
    method EnqueueFromMain(w: Wanted, gaps: Gaps) returns (overrun: bool)
      requires Valid() && Schedule(w, gaps)
      modifies `slowTail, slowQueue
      ensures overrun == Overruns(|arrived| - done, w, gaps)
      ensures !overrun ==>
                && slowQueue[..] == SlotsLeft(old(slowQueue[..]), |arrived|, w, gaps)
                && slowTail == TailLeft(|arrived|, w, gaps)
    {
      hide Slot, Pack, System.InFaithful, System.OutFaithful, System.SlowFaithful, System.Complete, System.Signalled;
      hide Flat, Missed, Lay, Marred, Put, PutRange, Patched;
      HeadAndTail(done, |arrived|, SLOW_SIZE);
      if slowHead == Advance(slowTail, SLOW_SIZE) {
        return true;
      }
      ghost var q, n := slowQueue[..], |arrived|;
      var i := 0;
      FlatNone(q, n, w, gaps);
      while i < w.Stores()
        invariant 0 <= i <= w.Stores() && Standing(q, w, gaps, 2 * i, i)
      {
        overrun := Gap(q, w, gaps, i);
        if overrun {
          return;
        }
        overrun := StoreField(q, w, gaps, i);
        if overrun {
          return;
        }
        i := i + 1;
      }
      overrun := Gap(q, w, gaps, i);
      if overrun {
        return;
      }
      AllPatched(q, n, w, gaps);
      var tail := slowTail;
      overrun := Arrive(gaps[2 * i + 1], n + |Early(w, gaps)|);
      SlotNext(n + |Early(w, gaps)|, SLOW_SIZE);
      slowTail := Advance(tail, SLOW_SIZE);
    }

    /** After `g` gaps and `b` stores. */
    ghost predicate Standing(q: seq<Message>, w: Wanted, gaps: Gaps, g: nat, b: nat)
      requires Schedule(w, gaps) && |q| == SLOW_SIZE && g <= 2 * w.Stores() + 1 && g / 2 <= b <= w.Stores()
      reads `slowHead, `slowTail, `arrived, `done, slowQueue
    {
      && Distinct() && slowHead == Slot(done, SLOW_SIZE) && done <= |arrived|
      && |arrived| + |Flat(gaps[..g])| < done + SLOW_SIZE
      && slowTail == Slot(|arrived| + |Flat(gaps[..g])|, SLOW_SIZE)
      && slowQueue[..] == Patched(q, |arrived|, w, gaps, g, b)
    }

    /** `ipc_enqueue_slow` in the main loop: the gap before the tail is read. */
    method Gap(ghost q: seq<Message>, w: Wanted, gaps: Gaps, i: nat) returns (overrun: bool)
      requires Schedule(w, gaps) && i <= w.Stores() && |q| == SLOW_SIZE && Standing(q, w, gaps, 2 * i, i)
      modifies `slowTail, slowQueue
      ensures overrun ==> Overruns(|arrived| - done, w, gaps)
      ensures !overrun ==> Standing(q, w, gaps, 2 * i + 1, i)
    {
      hide Slot, Lay, Patched;
      FlatGrows(gaps, 2 * i + 1, 2 * w.Stores() + 1);
      FlatMore(gaps, 2 * i);
      overrun := Arrive(gaps[2 * i], |arrived| + |Flat(gaps[..2 * i])|);
      if !overrun {
        BeforeRead(q, |arrived|, w, gaps, i);
      }
    }

    /** `ipc_enqueue_slow` in the main loop: read the tail, and store one field where it pointed. */
    method StoreField(ghost q: seq<Message>, w: Wanted, gaps: Gaps, i: nat) returns (overrun: bool)
      requires Schedule(w, gaps) && i < w.Stores() && |q| == SLOW_SIZE && Standing(q, w, gaps, 2 * i + 1, i)
      modifies `slowTail, slowQueue
      ensures overrun ==> Overruns(|arrived| - done, w, gaps)
      ensures !overrun ==> Standing(q, w, gaps, 2 * (i + 1), i + 1)
    {
      hide Slot, Lay, Patched, Requests.Put;
      FlatGrows(gaps, 2 * i + 2, 2 * w.Stores() + 1);
      FlatMore(gaps, 2 * i + 1);
      var tail := slowTail;
      overrun := Arrive(gaps[2 * i + 1], |arrived| + |Flat(gaps[..2 * i + 1])|);
      if overrun {
        return;
      }
      BeforeStore(q, |arrived|, w, gaps, i);
      slowQueue[tail] := Requests.Put(slowQueue[tail], w, i);
    }

    /** What the interrupt handler does, apart from memory of its own, for one request. */
    ghost predicate Acted(m: Message, arrived0: seq<Message>, replies0: seq<Message>)
      reads `arrived, `replies
    {
      var fast := m.code.flags % 2 == 1;
      var answered :=
        && fast && m.code.device == DEV_SYS
        && (m.code.req == SYS_PING || m.code.req == SYS_READ32 || m.code.req == SYS_READ16 || m.code.req == SYS_READ8);
      && arrived == arrived0 + (if fast then [] else [m])
      && replies0 <= replies && |replies| == |replies0| + (if answered then 1 else 0)
      && (answered ==> var r := replies[|replies| - 1]; r.code == m.code && r.tag == m.tag)
    }

    /** `process_in`. */
    method ProcessIn()
      requires Valid() && Settled() && draining && !panicked && taken < |posted| && !irqOn
      modifies `ppcMsg, `bell, `ringing, `budget, `posted, `seen, `received, inQueue
      modifies `irqOn, `armMsg, `outTail, `offered, `replies, outQueue
      modifies `slowTail, `arrived, `fromPpc, `moved, `panicked, slowQueue
      ensures Valid() && Published() && Calmer(old(budget), old(ringing), old(bell), old(|posted|))
      ensures old(posted) <= posted && !irqOn && old(arrived) <= arrived && old(replies) <= replies
      ensures panicked ==> |arrived| + 1 == done + SLOW_SIZE && arrived == old(arrived)
      ensures !panicked ==>
                moved == taken + 1 && Acted(old(posted)[taken], old(arrived), old(replies))
      decreases false, 6
    {
      hide System.Valid;
      Ppc();
      var req := NextRequest();
      if Fast(req) {
        ProcessFast(req);
      } else {
        PushSlow(req, true);
      }
    }

    /** The request at the head of the ring; the PPC cannot have changed it. */
    function NextRequest(): (m: Message)
      requires Valid() && taken < |posted|
      reads `slowHead, `slowTail, `inHead, `outTail, `armMsg, `ppcMsg, `posted, `taken, `shown, `moved
      reads `replies, `offered, `seen, `arrived, `done, `received, `fromPpc, `processed
      reads `bell, `ringing, `draining, inQueue, outQueue, slowQueue
      ensures m == posted[taken]
    {
      hide Slot;
      inQueue[inHead]
    }

    /** `process_in`: a fast request; reads of foreign registers yield any value. */
    method ProcessFast(req: Message)
      requires Valid() && Settled() && draining && taken < |posted| && Fast(req) && req == posted[moved] && !irqOn
      modifies `ppcMsg, `bell, `ringing, `budget, `posted, `seen, `received, inQueue
      modifies `irqOn, `armMsg, `outTail, `offered, `replies, outQueue, `moved
      ensures Valid() && Published() && Calmer(old(budget), old(ringing), old(bell), old(|posted|))
      ensures old(posted) <= posted && !irqOn
      ensures moved == taken + 1 && Acted(req, old(arrived), old(replies))
      decreases false, 5
    {
      hide Slot, Pack, Hi, Lo, System.InFaithful, System.OutFaithful, System.SlowFaithful, System.Signalled;
      hide Holds, SlowPart, Marked;
      SlowPartNext(posted, moved);
      moved := moved + 1;
      if req.code.device == DEV_SYS {
        if req.code.req == SYS_PING {
          Post(req.code, req.tag, []);
        } else if req.code.req == SYS_READ32 || req.code.req == SYS_READ16 || req.code.req == SYS_READ8 {
          var x: Word := *;
          Post(req.code, req.tag, [x]);
        }
      }
    }

    /** `ipc_irq`: answer the ring first, then drain the request ring, as long as the PPC keeps ringing. */
    method IpcIrq()
      requires Valid() && Settled() && !draining && !panicked && !irqOn
      modifies `ppcMsg, `bell, `ringing, `budget, `posted, `seen, `received, inQueue
      modifies `irqOn, `armMsg, `outTail, `offered, `replies, outQueue
      modifies `slowTail, `arrived, `fromPpc, `moved, `panicked, slowQueue
      modifies `inHead, `taken, `shown, `draining
      ensures Valid() && !irqOn
      ensures Load() <= old(Load()) && old(arrived) <= arrived
      ensures old(replies) <= replies
      ensures panicked ==> |arrived| + 1 == done + SLOW_SIZE
      ensures !panicked ==> Settled() && !draining
      decreases false, 9
    {
      hide System.Valid, System.Complete;
      Ppc();
      while bell
        invariant Valid() && Settled() && !draining && !panicked && !irqOn
        invariant Load() <= old(Load()) && old(arrived) <= arrived
        invariant old(replies) <= replies
        decreases Pending(budget, ringing, bell)
      {
        Answer();
        Drain();
        if panicked {
          return;
        }
        Ppc();
      }
    }

    /** How many requests are yet to come or to be handled. */
    ghost function Load(): int
      reads `budget, `posted, `taken, `arrived, `done
    {
      budget + |posted| - taken + |arrived| - done
    }

    /** `ipc_irq`: the write that answers the ring. */
    method Answer()
      requires Valid()
      modifies `bell, `draining
      ensures Valid() && draining && !bell
    {
      hide System.InFaithful, System.OutFaithful, System.SlowFaithful, System.Complete, Indexed;
      bell, draining := false, true;
    }

    /** `ipc_irq`: the inner loop. At its last look the ring is empty. */
    method Drain()
      requires Valid() && Settled() && draining && !panicked && !bell && !irqOn
      modifies `ppcMsg, `bell, `ringing, `budget, `posted, `seen, `received, inQueue
      modifies `irqOn, `armMsg, `outTail, `offered, `replies, outQueue
      modifies `slowTail, `arrived, `fromPpc, `moved, `panicked, slowQueue
      modifies `inHead, `taken, `shown, `draining
      ensures Valid() && !irqOn
      ensures Load() <= old(Load()) && old(arrived) <= arrived
      ensures old(replies) <= replies
      ensures Pending(budget, ringing, bell) <= old(Pending(budget, ringing, bell))
      ensures panicked ==> |arrived| + 1 == done + SLOW_SIZE
      ensures !panicked ==> Settled() && !draining && taken == |posted|
      decreases false, 8
    {
      hide Slot, Pack, Hi, Lo, System.InFaithful, System.OutFaithful, System.SlowFaithful, System.Complete;
      hide Advance;
      Ppc();
      HeadAndTail(taken, |posted|, IN_SIZE);
      while Lo(ppcMsg) != inHead
        invariant Valid() && Settled() && draining && !panicked && !irqOn
        invariant Load() <= old(Load()) && old(arrived) <= arrived
        invariant old(replies) <= replies
        invariant Pending(budget, ringing, bell) <= old(Pending(budget, ringing, bell))
        invariant Lo(ppcMsg) == inHead <==> taken == |posted|
        decreases budget + |posted| - taken
      {
        DrainOne();
        if panicked {
          return;
        }
        HeadAndTail(taken, |posted|, IN_SIZE);
      }
      draining := false;
    }

    /** `ipc_irq`: one turn of the inner loop. */
    method DrainOne()
      requires Valid() && Settled() && draining && !panicked && taken < |posted| && !irqOn
      modifies `ppcMsg, `bell, `ringing, `budget, `posted, `seen, `received, inQueue
      modifies `irqOn, `armMsg, `outTail, `offered, `replies, outQueue
      modifies `slowTail, `arrived, `fromPpc, `moved, `panicked, slowQueue
      modifies `inHead, `taken, `shown
      ensures Valid() && !irqOn
      ensures Load() <= old(Load()) && old(arrived) <= arrived
      ensures old(replies) <= replies
      ensures budget + |posted| == old(budget) + old(|posted|)
      ensures Pending(budget, ringing, bell) <= old(Pending(budget, ringing, bell))
      ensures panicked ==> |arrived| + 1 == done + SLOW_SIZE
      ensures !panicked ==> Settled() && taken == old(taken) + 1
      decreases false, 7
    {
      hide System.Valid, System.Complete;
      ProcessIn();
      if panicked {
        return;
      }
      Acknowledge();
    }

    /** `ipc_irq`: the request just handled is consumed, and that is published. */
    method Acknowledge()
      requires Valid() && Published() && shown == taken && moved == taken + 1 && draining
      modifies `ppcMsg, `bell, `ringing, `budget, `posted, `seen, `received, inQueue
      modifies `armMsg, `inHead, `taken, `shown
      ensures Valid() && Settled() && taken == old(taken) + 1
      ensures Calmer(old(budget), old(ringing), old(bell), old(|posted|)) && old(posted) <= posted
    {
      hide System.Valid;
      Consume();
      PokeInHead();
      Ppc();
    }

    /** `ipc_irq`: the request just handled is consumed. */
    method Consume()
      requires Valid() && shown == taken && moved == taken + 1 && draining
      modifies `inHead, `taken
      ensures Valid() && taken == old(taken) + 1
    {
      hide Slot, Pack, Hi, Lo, System.OutFaithful, System.SlowFaithful, System.Complete, Holds;
      Take(inQueue[..], posted, taken);
      SlotNext(taken, IN_SIZE);
      inHead := Advance(inHead, IN_SIZE);
      taken := taken + 1;
    }

    // ----- the main loop -----

    /** The main loop stands between two of its own steps. */
    ghost predicate Idle()
      reads `taken, `shown, `moved, `replies, `offered, `draining, `panicked, `irqOn
    {
      Settled() && !draining && !panicked && irqOn
    }

    /** With interrupts enabled, the PPC acts and interrupts are taken for a while. */
    method Breathe()
      requires Valid() && Idle()
      modifies `ppcMsg, `bell, `ringing, `budget, `posted, `seen, `received, inQueue
      modifies `irqOn, `armMsg, `outTail, `offered, `replies, outQueue
      modifies `slowTail, `arrived, `fromPpc, `moved, `panicked, slowQueue
      modifies `inHead, `taken, `shown, `draining
      ensures Valid() && Load() <= old(Load()) && old(arrived) <= arrived
      ensures old(replies) <= replies
      ensures panicked ==> |arrived| + 1 == done + SLOW_SIZE
      ensures !panicked ==> Idle()
      decreases false, 12
    {
      hide System.Valid, System.Complete;
      var turns: nat := *;
      while turns > 0
        invariant Valid() && Idle() && Load() <= old(Load()) && old(arrived) <= arrived && old(replies) <= replies
      {
        Interrupt();
        if panicked {
          return;
        }
        turns := turns - 1;
      }
    }

    /** The PPC acts, and then an interrupt is taken if one is pending. */
    method Interrupt()
      requires Valid() && Idle()
      modifies `ppcMsg, `bell, `ringing, `budget, `posted, `seen, `received, inQueue
      modifies `irqOn, `armMsg, `outTail, `offered, `replies, outQueue
      modifies `slowTail, `arrived, `fromPpc, `moved, `panicked, slowQueue
      modifies `inHead, `taken, `shown, `draining
      ensures Valid() && Load() <= old(Load()) && old(arrived) <= arrived
      ensures old(replies) <= replies
      ensures panicked ==> |arrived| + 1 == done + SLOW_SIZE
      ensures !panicked ==> Idle()
      decreases false, 11
    {
      hide System.Valid, System.Complete;
      Ppc();
      irqOn := false;
      Serve();
      irqOn := !panicked;
    }

    /** `irq_handler`, for one of the devices whose handlers use the queues. */
    method Serve()
      requires Valid() && Settled() && !draining && !panicked && !irqOn
      modifies `ppcMsg, `bell, `ringing, `budget, `posted, `seen, `received, inQueue
      modifies `irqOn, `armMsg, `outTail, `offered, `replies, outQueue
      modifies `slowTail, `arrived, `fromPpc, `moved, `panicked, slowQueue
      modifies `inHead, `taken, `shown, `draining
      ensures Valid() && Load() <= old(Load()) && old(arrived) <= arrived
      ensures old(replies) <= replies
      ensures panicked ==> |arrived| + 1 == done + SLOW_SIZE
      ensures !panicked ==> Settled() && !draining
      decreases false, 10
    {
      hide System.Valid, System.Complete;
      var cause: nat := *;
      if bell && cause == 0 {
        IpcIrq();
      } else if cause == 1 {
        CompletionIrq();
      } else if budget > 0 {
        DeviceIrq();
      }
    }

    /** The interrupt of a device that has finished a request; its handler posts the reply. */
    method CompletionIrq()
      requires Valid() && Settled() && !irqOn
      modifies `ppcMsg, `bell, `ringing, `budget, `posted, `seen, `received, inQueue
      modifies `irqOn, `armMsg, `outTail, `offered, `replies, outQueue
      ensures Valid() && Settled() && Load() <= old(Load()) && !irqOn
      ensures old(replies) <= replies
      decreases false, 9
    {
      hide System.Valid, System.Complete;
      var code, tag: Word, result: Word := *, *, *;
      Post(code, tag, [result]);
    }

    /** The interrupt of some other device, whose handler enqueues a slow request. */
    method DeviceIrq()
      requires Valid() && !panicked && budget > 0
      modifies `budget, `slowTail, `arrived, `fromPpc, `moved, `panicked, slowQueue
      ensures Valid() && moved == old(moved) && Load() <= old(Load()) && old(arrived) <= arrived
      ensures panicked ==> |arrived| + 1 == done + SLOW_SIZE
    {
      hide System.Complete, System.InFaithful, System.OutFaithful, System.SlowFaithful, Indexed, System.Signalled;
      var device: nat, req: nat := *, *;
      budget := budget - 1;
      EnqueueSlow(device, req, []);
    }

    /** The request in the slot being handled, whatever interrupts have come in between. */
    function Current(): (m: Message)
      requires Valid() && done < |arrived|
      reads `slowHead, `slowTail, `inHead, `outTail, `armMsg, `ppcMsg, `posted, `taken, `shown, `moved
      reads `replies, `offered, `seen, `arrived, `done, `received, `fromPpc, `processed
      reads `bell, `ringing, `draining, inQueue, outQueue, slowQueue
      ensures m == arrived[done]
    {
      hide Slot;
      slowQueue[slowHead]
    }

    /**
     * `process_slow`: handlers may read the request again at any time, wait and post replies. The
     * handlers of other devices may do so any number of times.
     */
    method HandleSlow() returns (vector: Word)
      requires Valid() && Idle() && done < |arrived|
      modifies `ppcMsg, `bell, `ringing, `budget, `posted, `seen, `received, inQueue
      modifies `irqOn, `armMsg, `outTail, `offered, `replies, outQueue
      modifies `slowTail, `arrived, `fromPpc, `moved, `panicked, slowQueue
      modifies `inHead, `taken, `shown, `draining
      ensures Valid() && Load() <= old(Load()) && old(arrived) <= arrived
      ensures old(replies) <= replies
      ensures panicked ==> |arrived| + 1 == done + SLOW_SIZE
      ensures !panicked ==>
                && Idle()
                && var m := old(arrived)[done];
                   && vector == (if m.code.device == DEV_SYS && m.code.req == SYS_JUMP then m.args[0] else 0)
                   && (Wants(m) ==> RepliedSince(m, replies, |old(replies)|))
    {
      hide System.Valid, System.Complete;
      Breathe();
      if panicked {
        return 0;
      }
      var code := Current().code;
      Breathe();
      if panicked {
        return 0;
      }
      var tag := Current().tag;
      ghost var m, before := arrived[done], replies;
      vector := Dispatch(code, tag);
      if !panicked && Wants(m) {
        assert |before| < |replies| && Responds(replies[|before|], m);
      }
    }

    /** `process_slow`: the switch. */
    method Dispatch(code: Code, tag: Word) returns (vector: Word)
      requires Valid() && Idle() && done < |arrived| && code == arrived[done].code && tag == arrived[done].tag
      modifies `ppcMsg, `bell, `ringing, `budget, `posted, `seen, `received, inQueue
      modifies `irqOn, `armMsg, `outTail, `offered, `replies, outQueue
      modifies `slowTail, `arrived, `fromPpc, `moved, `panicked, slowQueue
      modifies `inHead, `taken, `shown, `draining
      ensures Valid() && Load() <= old(Load()) && old(arrived) <= arrived
      ensures old(replies) <= replies
      ensures panicked ==> |arrived| + 1 == done + SLOW_SIZE
      ensures !panicked ==>
                && Idle()
                && var m := old(arrived)[done];
                   && vector == (if m.code.device == DEV_SYS && m.code.req == SYS_JUMP then m.args[0] else 0)
                   && (m.code.device == DEV_SYS ==> |replies| == |old(replies)| + if Wants(m) then 1 else 0)
                   && (Wants(m) ==> Responds(replies[|old(replies)|], m))
    {
      hide System.Valid, System.Complete;
      if code.device == DEV_SYS {
        if code.req == SYS_PING || code.req == SYS_GETGITS {
          Post(code, tag, []);
        } else if code.req == SYS_GETVERS {
          Post(code, tag, [VERSION]);
        } else if code.req == SYS_JUMP {
          return Current().args[0];
        }
      } else {
        OtherDevice();
      }
      return 0;
    }

    /** The handler of a device outside this model: it waits, looks at its request and posts replies. */
    method OtherDevice()
      requires Valid() && Idle() && done < |arrived|
      modifies `ppcMsg, `bell, `ringing, `budget, `posted, `seen, `received, inQueue
      modifies `irqOn, `armMsg, `outTail, `offered, `replies, outQueue
      modifies `slowTail, `arrived, `fromPpc, `moved, `panicked, slowQueue
      modifies `inHead, `taken, `shown, `draining
      ensures Valid() && Load() <= old(Load()) && old(arrived) <= arrived
      ensures old(replies) <= replies
      ensures panicked ==> |arrived| + 1 == done + SLOW_SIZE
      ensures !panicked ==> Idle()
    {
      hide System.Valid, System.Complete;
      ghost var request := Current();
      var turns: nat := *;
      while turns > 0
        invariant Valid() && Idle() && Load() <= old(Load()) && old(arrived) <= arrived && old(replies) <= replies
        invariant done < |arrived| && Current() == request
      {
        Breathe();
        if panicked {
          return;
        }
        Post(Current().code, Current().tag, []);
        turns := turns - 1;
      }
    }

    /** `ipc_process_slow`: the head moves only after the request has been handled. */
    method Retire()
      requires Valid() && Idle() && done < |arrived|
      modifies `slowHead, `done, `processed
      ensures Valid() && Idle() && done == old(done) + 1 && processed == old(processed) + [arrived[old(done)]]
    {
      hide Slot, Pack, Hi, Lo, System.OutFaithful, System.InFaithful, System.Complete, Holds, System.Signalled;
      Take(slowQueue[..], arrived, done);
      SlotNext(done, SLOW_SIZE);
      processed := processed + [slowQueue[slowHead]];
      slowHead := Advance(slowHead, SLOW_SIZE);
      done := done + 1;
    }

    /** `ipc_process_slow`: one turn of the inner loop. */
    method HandleAndRetire() returns (vector: Word)
      requires Valid() && Idle() && done < |arrived|
      modifies `ppcMsg, `bell, `ringing, `budget, `posted, `seen, `received, inQueue
      modifies `irqOn, `armMsg, `outTail, `offered, `replies, outQueue
      modifies `slowTail, `arrived, `fromPpc, `moved, `panicked, slowQueue
      modifies `inHead, `taken, `shown, `draining
      modifies `slowHead, `done, `processed
      ensures Valid() && old(processed) <= processed && old(replies) <= replies
      ensures Attended(processed, |old(processed)|, replies, |old(replies)|)
      ensures panicked ==> |arrived| + 1 == done + SLOW_SIZE
      ensures !panicked ==>
                && Idle() && Load() < old(Load())
                && |processed| > |old(processed)| && JumpTarget(processed[|processed| - 1]) == vector
    {
      hide System.Valid;
      ghost var ps, m := processed, arrived[done];
      vector := HandleSlow();
      if panicked {
        return;
      }
      Breathe();
      if panicked {
        return;
      }
      Retire();
      Breathe();
      assert processed == ps + [m];
    }

    /** `ipc_process_slow`: the inner loop. */
    method EmptySlow() returns (vector: Word)
      requires Valid() && Idle()
      modifies `ppcMsg, `bell, `ringing, `budget, `posted, `seen, `received, inQueue
      modifies `irqOn, `armMsg, `outTail, `offered, `replies, outQueue
      modifies `slowTail, `arrived, `fromPpc, `moved, `panicked, slowQueue
      modifies `inHead, `taken, `shown, `draining, `slowHead, `done, `processed
      ensures Valid() && old(processed) <= processed && old(replies) <= replies
      ensures Attended(processed, |old(processed)|, replies, |old(replies)|)
      ensures panicked ==> |arrived| + 1 == done + SLOW_SIZE
      ensures !panicked ==> Idle()
      ensures !panicked && vector != 0 ==>
                && processed != []
                && var m := processed[|processed| - 1];
                   m.code.device == DEV_SYS && m.code.req == SYS_JUMP && m.args[0] == vector
    {
      hide System.InFaithful, System.OutFaithful, System.SlowFaithful, System.Complete, System.Signalled, Slot;
      hide Pack, RepliedSince, Responds, Wants;
      vector := 0;
      Breathe();
      if panicked {
        return;
      }
      HeadAndTail(done, |arrived|, SLOW_SIZE);
      while vector == 0 && slowHead != slowTail
        invariant Valid() && Idle() && old(processed) <= processed && old(replies) <= replies
        invariant Attended(processed, |old(processed)|, replies, |old(replies)|)
        invariant slowHead == slowTail <==> done == |arrived|
        invariant vector != 0 ==> processed != [] && JumpTarget(processed[|processed| - 1]) == vector
        decreases Load()
      {
        ghost var ps, rs := processed, replies;
        vector := HandleAndRetire();
        AttendedOn(ps, |old(processed)|, rs, |old(replies)|, processed, replies);
        if panicked {
          return;
        }
        HeadAndTail(done, |arrived|, SLOW_SIZE);
      }
    }

    /** `irq_wait`: sleep until an interrupt is pending. It is never entered with slow requests left. */
    method Sleep()
      requires Valid() && done == |arrived| && !irqOn
      modifies `ppcMsg, `bell, `ringing, `budget, `posted, `seen, `received, inQueue
      ensures Valid()
    {
      Ppc();
    }

    /** `ipc_process_slow`, observed for at most `rounds` turns of its outer loop. */
    method ProcessSlow(rounds: nat) returns (vector: Word)
      requires Valid() && Idle()
      modifies `ppcMsg, `bell, `ringing, `budget, `posted, `seen, `received, inQueue
      modifies `irqOn, `armMsg, `outTail, `offered, `replies, outQueue
      modifies `slowTail, `arrived, `fromPpc, `moved, `panicked, slowQueue
      modifies `inHead, `taken, `shown, `draining, `slowHead, `done, `processed
      ensures Valid() && old(processed) <= processed && old(replies) <= replies
      ensures Attended(processed, |old(processed)|, replies, |old(replies)|)
      ensures panicked ==> |arrived| + 1 == done + SLOW_SIZE
      ensures !panicked ==> Idle()
      ensures !panicked && vector != 0 ==>
                && processed != []
                && var m := processed[|processed| - 1];
                   m.code.device == DEV_SYS && m.code.req == SYS_JUMP && m.args[0] == vector
    {
      hide System.Valid, System.Complete, RepliedSince, Wants;
      vector := 0;
      var left := rounds;
      while vector == 0 && left > 0
        invariant Valid() && Idle() && old(processed) <= processed && old(replies) <= replies
        invariant Attended(processed, |old(processed)|, replies, |old(replies)|)
        invariant vector != 0 ==> processed != [] && JumpTarget(processed[|processed| - 1]) == vector
        decreases left
      {
        ghost var ps, rs := processed, replies;
        vector := EmptySlow();
        AttendedOn(ps, |old(processed)|, rs, |old(replies)|, processed, replies);
        if panicked {
          return;
        }
        if vector == 0 {
          ghost var rs1 := replies;
          Breathe();
          AttendedOn(processed, |old(processed)|, rs1, |old(replies)|, processed, replies);
          if panicked {
            return;
          }
          Rest();
        }
        left := left - 1;
      }
    }

    /** `ipc_process_slow`: the second look at the slow queue. */
    method LookAgain() returns (empty: bool)
      requires Valid() && !irqOn
      modifies `ppcMsg, `bell, `ringing, `budget, `posted, `seen, `received, inQueue
      ensures Valid() && empty == (done == |arrived|)
    {
      hide System.InFaithful, System.OutFaithful, System.SlowFaithful, System.Complete, System.Signalled, Slot;
      hide Pack, Hi, Lo, Advance;
      HeadAndTail(done, |arrived|, SLOW_SIZE);
      var head := slowHead;
      Tick();
      empty := head == slowTail;
    }

    /** `ipc_process_slow`: look once more with interrupts off, and sleep only if there is nothing to do. */
    method Rest()
      requires Valid() && Idle()
      modifies `ppcMsg, `bell, `ringing, `budget, `posted, `seen, `received, inQueue, `irqOn
      ensures Valid() && Idle()
    {
      hide System.Valid;
      var cookie := irqOn;
      irqOn := false;
      var empty := LookAgain();
      Tick();
      if empty {
        Sleep();
      }
      irqOn := cookie;
    }

    /** What `Valid` says about a run so far. */
    lemma Promise()
      requires Valid()
      ensures Marked(processed, fromPpc) <= SlowPart(posted)
      ensures received <= replies && processed <= arrived
      ensures !bell && !ringing && !draining ==> taken == |posted|
      ensures Settled() ==> armMsg == 0x1_0000 * (taken % 32) + |replies| % 32
      ensures ppcMsg == 0x1_0000 * (|received| % 32) + |posted| % 32
    {
      hide Pack, Hi, Lo, Holds, SlowPart, Marked;
      MarkedPrefix(arrived, fromPpc, done);
      SlowPartPrefix(posted, moved);
    }
  }

  /** A slow request that the main loop itself replies to. */
  predicate Wants(m: Message) {
    m.code.device == DEV_SYS && (m.code.req == SYS_PING || m.code.req == SYS_GETVERS || m.code.req == SYS_GETGITS)
  }

  /** Reply `r` is the one to request `m`. */
  predicate Responds(r: Message, m: Message) {
    r.code == m.code && r.tag == m.tag && (m.code.req == SYS_GETVERS ==> r.args[0] == VERSION)
  }

  /** From number `from` on there is a reply to `m`. */
  ghost predicate RepliedSince(m: Message, replies: seq<Message>, from: nat) {
    exists k :: from <= k < |replies| && Responds(replies[k], m)
  }

  /** Of the requests processed from number `p` on, all that want a reply got one, from number `r` on. */
  ghost predicate Attended(processed: seq<Message>, p: nat, replies: seq<Message>, r: nat) {
    forall i :: p <= i < |processed| && Wants(processed[i]) ==> RepliedSince(processed[i], replies, r)
  }

  lemma AttendedOn(ps: seq<Message>, p: nat, rs: seq<Message>, r: nat, ps': seq<Message>, rs': seq<Message>)
    requires Attended(ps, p, rs, r) && Attended(ps', |ps|, rs', |rs|)
    requires ps <= ps' && rs <= rs' && r <= |rs|
    ensures Attended(ps', p, rs', r)
  {
    forall i | p <= i < |ps'| && Wants(ps'[i]) ensures RepliedSince(ps'[i], rs', r) {
      if i < |ps| {
        var k :| r <= k < |rs| && Responds(rs[k], ps[i]);
        assert Responds(rs'[k], ps'[i]);
      } else {
        var k :| |rs| <= k < |rs'| && Responds(rs'[k], ps'[i]);
      }
    }
  }

  /** The vector a request makes the main loop leave with, 0 for none. */
  function JumpTarget(m: Message): (v: Word) {
    if m.code.device == DEV_SYS && m.code.req == SYS_JUMP then m.args[0] else 0
  }
}
