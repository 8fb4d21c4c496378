// Properties of whole runs of the video receiver: any interleaving of producer steps, consumer
// calls and flushes.
module VideoRuns {
  import opened Bytes
  import opened VideoModel

  ghost predicate FlushFree(steps: seq<Step>) {
    forall i | 0 <= i < |steps| :: !steps[i].Flush?
  }

  ghost predicate ProducerOnly(steps: seq<Step>) {
    forall i | 0 <= i < |steps| :: steps[i].Rtp? || steps[i].CheckOn? || steps[i].Store?
  }

  ghost function Run(s: State, steps: seq<Step>): (s': State)
    requires Ok(s)
    ensures Ok(s') && s'.ring.size == s.ring.size
    decreases steps
  {
    if steps == [] then s else Run(Next(s, steps[0]), steps[1..])
  }

  // The bytes a single step hands to the consumer, and those it takes from the network.
  ghost function Handed(s: State, step: Step): seq<byte>
    requires Ok(s)
  {
    if step.Recv? && Enabled(s, step) then Region(Next(s, step).ring) else []
  }

  ghost function Kept(s: State, step: Step): seq<byte>
    requires Ok(s)
  {
    if step.Store? && Enabled(s, step) && !Drops(s.ring) then step.packet else []
  }

  ghost function Returned(s: State, steps: seq<Step>): seq<byte>
    requires Ok(s)
    decreases steps
  {
    if steps == [] then [] else Handed(s, steps[0]) + Returned(Next(s, steps[0]), steps[1..])
  }

  ghost function Accepted(s: State, steps: seq<Step>): seq<byte>
    requires Ok(s)
    decreases steps
  {
    if steps == [] then [] else Kept(s, steps[0]) + Accepted(Next(s, steps[0]), steps[1..])
  }

  // ---------------------------------------------------------------- first in, first out

  lemma StepKeepsOrder(s: State, step: Step)
    requires Ok(s) && !step.Flush?
    ensures Handed(s, step) + Waiting(Next(s, step).ring) == Waiting(s.ring) + Kept(s, step)
  {
  }

  // Nothing is lost, repeated or reordered between acceptance and hand-over.
  lemma {:induction false} FirstInFirstOut(s: State, steps: seq<Step>)
    requires Ok(s) && FlushFree(steps)
    ensures Returned(s, steps) + Waiting(Run(s, steps).ring) == Waiting(s.ring) + Accepted(s, steps)
    decreases steps
  {
    hide RingOk, Next, Handed, Kept;
    if steps != [] {
      var s1 := Next(s, steps[0]);
      FirstInFirstOut(s1, steps[1..]);
      StepKeepsOrder(s, steps[0]);
      calc {
        Returned(s, steps) + Waiting(Run(s, steps).ring);
        Handed(s, steps[0]) + (Returned(s1, steps[1..]) + Waiting(Run(s1, steps[1..]).ring));
        Handed(s, steps[0]) + (Waiting(s1.ring) + Accepted(s1, steps[1..]));
        (Handed(s, steps[0]) + Waiting(s1.ring)) + Accepted(s1, steps[1..]);
        (Waiting(s.ring) + Kept(s, steps[0])) + Accepted(s1, steps[1..]);
        Waiting(s.ring) + Accepted(s, steps);
      }
    }
  }

  lemma {:induction false} RunAppend(s: State, a: seq<Step>, b: seq<Step>)
    requires Ok(s)
    ensures Run(s, a + b) == Run(Run(s, a), b)
    decreases a
  {
    if a == [] {
      assert a + b == b;
    } else {
      assert (a + b)[1..] == a[1..] + b;
      RunAppend(Next(s, a[0]), a[1..], b);
    }
  }

  lemma AfterFlush(s: State, before: seq<Step>)
    requires Ok(s) && Run(s, before).flush.None?
    ensures var f := Run(s, before + [Flush]);
            f.flush == Some(0) && f.ring.held == [] && f.ring.loan == 0
  {
    hide RingOk;
    RunAppend(s, before, [Flush]);
    var e := Run(s, before);
    assert Run(e, [Flush]) == Run(Next(e, Flush), []);
  }

  // Since the latest flush began, whatever happened before it: what the consumer got, followed by what is
  // waiting, is what was accepted.
  lemma SinceFlush(s: State, before: seq<Step>, steps: seq<Step>)
    requires Ok(s) && Run(s, before).flush.None? && FlushFree(steps)
    ensures var f := Run(s, before + [Flush]);
            Returned(f, steps) + Waiting(Run(f, steps).ring) == Accepted(f, steps)
  {
    var f := Run(s, before + [Flush]);
    AfterFlush(s, before);
    FirstInFirstOut(f, steps);
    assert Waiting(f.ring) == [];
  }

  // ---------------------------------------------------------------- the loan

  // However many packets arrive, and whether or not they overflow the ring, what the consumer has
  // been handed stays as it is.
  lemma {:induction false} LoanIsStable(s: State, steps: seq<Step>)
    requires Ok(s) && ProducerOnly(steps)
    ensures var r := Run(s, steps).ring;
            && Region(r) == Region(s.ring) && r.loan == s.ring.loan && r.toEnd == s.ring.toEnd
            && s.ring.held <= r.held
    decreases steps
  {
    if steps != [] {
      LoanIsStable(Next(s, steps[0]), steps[1..]);
    }
  }

  // ---------------------------------------------------------------- capacity

  // A receiver made for `requested` bytes drops a packet, whatever was done with it before, exactly
  // when that many whole packets are held, those on loan included.
  lemma ExactCapacity(requested: nat, steps: seq<Step>, p: Packet)
    requires requested >= 1316 && Enabled(Run(Created(requested), steps), Store(p))
    ensures var s := Run(Created(requested), steps);
            var full := |s.ring.held| / 1316 == requested / 1316;
            && |s.ring.held| / 1316 <= requested / 1316
            && Next(s, Store(p)).ring.held == (if full then s.ring.held else s.ring.held + p)
            && (full <==> Drops(s.ring))
  {
    hide StoreStats, Run;
    WholeCount(|Run(Created(requested), steps).ring.held|, requested / PACKET_SIZE);
  }

  lemma WholeCount(n: nat, k: nat)
    requires Whole(n) && n <= k * PACKET_SIZE
    ensures n / PACKET_SIZE <= k
    ensures n == k * PACKET_SIZE <==> n / PACKET_SIZE == k
  {
  }

  // ---------------------------------------------------------------- what a call hands out

  // How far the end of the ring is once the region on loan is given back.
  function Straight(r: Ring): nat {
    if r.toEnd <= r.loan then r.size else r.toEnd - r.loan
  }

  // What a call hands out: the front of what waits, in whole packets, no more than asked for and not
  // across the end of the ring; and never less than one of these three allows.
  lemma HandsOut(s: State, max: nat)
    requires Ok(s) && s.flush.None?
    ensures var r, w, e := Handed(s, Recv(max)), Waiting(s.ring), Straight(s.ring);
            && r <= w && |r| % 1316 == 0 && |r| <= max && |r| <= e
            && (|r| + 1316 > max || |r| == |w| || |r| == e)
            && (w != [] && max >= 1316 ==> r != [])
  {
    var asked := max / PACKET_SIZE * PACKET_SIZE;
    LargestWhole(max);
    WaitingWhole(s.ring);
    Multiples(s.ring.toEnd, s.ring.loan);
    var t := Settle(s.ring);
    assert t.held == Waiting(s.ring) && t.toEnd == Straight(s.ring) && Whole(|t.held|);
    LeastOfThree(asked, |t.held|, t.toEnd);
  }

  lemma LargestWhole(max: nat)
    ensures var asked := max / PACKET_SIZE * PACKET_SIZE;
            Whole(asked) && asked <= max < asked + 1316 && (max >= 1316 ==> asked >= 1316)
  {
  }

  lemma LeastOfThree(a: nat, b: nat, c: nat)
    requires Whole(a) && Whole(b) && Whole(c)
    ensures var m := Min(a, Min(b, c));
            m % 1316 == 0 && m <= a && m <= b && m <= c && (m == a || m == b || m == c)
  {
  }

  function Calls(max: nat, n: nat): (steps: seq<Step>)
    ensures |steps| == n && forall i | 0 <= i < n :: steps[i] == Recv(max)
  {
    seq(n, i => Recv(max))
  }

  // As many calls as packets are waiting hand over all of them, for whatever size of at least one
  // packet is asked; from the first call that finds nothing on, nothing more comes.
  lemma {:induction false} CallsDrain(s: State, max: nat, n: nat)
    requires Ok(s) && s.flush.None? && max >= 1316 && 1316 * n >= |Waiting(s.ring)|
    ensures Returned(s, Calls(max, n)) == Waiting(s.ring)
    decreases n
  {
    hide RecvRing, RingOk, Waiting, Handed;
    if n > 0 {
      var next := Next(s, Recv(max));
      assert Calls(max, n)[1..] == Calls(max, n - 1);
      HandsOut(s, max);
      StepKeepsOrder(s, Recv(max));
      assert Kept(s, Recv(max)) == [];
      var r := Handed(s, Recv(max));
      assert r + Waiting(next.ring) == Waiting(s.ring);
      AtLeastOnePacket(|r|);
      CallsDrain(next, max, n - 1);
    } else {
      assert |Waiting(s.ring)| == 0;
    }
  }

  lemma AtLeastOnePacket(n: nat)
    requires n % 1316 == 0
    ensures n == 0 || n >= 1316
  {
  }

  // Two calls asking for the whole ring are enough: the first may stop at the end of the ring, the
  // second continues at its start.
  lemma TwoCallsDrain(s: State, max: nat)
    requires Ok(s) && s.flush.None? && max >= s.ring.size
    ensures Returned(s, [Recv(max), Recv(max)]) == Waiting(s.ring)
  {
    var s1 := Next(s, Recv(max));
    var s2 := Next(s1, Recv(max));
    ReturnedByTwo(s, Recv(max), Recv(max));
    RecvTakes(s.ring, max);
    RecvTakes(s1.ring, max);
  }

  lemma ReturnedByTwo(s: State, a: Step, b: Step)
    requires Ok(s)
    ensures Returned(s, [a, b]) == Handed(s, a) + Handed(Next(s, a), b)
  {
    hide Next, Handed, RingOk;
    var s1 := Next(s, a);
    assert [a, b][1..] == [b];
    assert Returned(s1, [b]) == Handed(s1, b) + Returned(Next(s1, b), []);
  }

  // One call asking for the whole ring takes everything up to the end of the ring.
  lemma RecvTakes(r: Ring, max: nat)
    requires RingOk(r) && max >= r.size
    ensures var r' := RecvRing(r, max);
            && Region(r') + Waiting(r') == Waiting(r)
            && (r'.loan == |r'.held| || r'.loan == r'.toEnd)
            && (Waiting(r') == [] || |Waiting(r')| < r.size - r'.loan)
            && r'.loan == Min(|Waiting(r)|, r'.toEnd)
            && r'.toEnd == Settle(r).toEnd
  {
    WholePackets(max, r.size);
  }

  lemma WholePackets(max: nat, size: nat)
    requires Whole(size) && max >= size
    ensures max / PACKET_SIZE * PACKET_SIZE >= size
  {
  }

  // ---------------------------------------------------------------- conservation

  predicate Stores(s: State, step: Step) {
    step.Store? && Enabled(s, step)
  }

  predicate Loses(s: State, step: Step) {
    Stores(s, step) && Drops(s.ring)
  }

  // How many packets of a run were stored in the ring or dropped, and how many of them were dropped.
  ghost function Stored(s: State, steps: seq<Step>): nat
    requires Ok(s)
    decreases steps
  {
    if steps == [] then 0 else (if Stores(s, steps[0]) then 1 else 0) + Stored(Next(s, steps[0]), steps[1..])
  }

  ghost function Dropped(s: State, steps: seq<Step>): nat
    requires Ok(s)
    decreases steps
  {
    if steps == [] then 0 else (if Loses(s, steps[0]) then 1 else 0) + Dropped(Next(s, steps[0]), steps[1..])
  }

  // The counts since the latest flush began: a flush in progress is going to zero them.
  function Packets(s: State): uint32 {
    if s.flush.Some? then 0 else s.stats.packets
  }

  function Overflows(s: State): uint32 {
    if s.flush.Some? then 0 else s.stats.overflowErrors
  }

  lemma StepCounts(s: State, step: Step)
    requires Ok(s) && !step.Flush?
    ensures var s' := Next(s, step);
            var store, drop := if Stores(s, step) then 1 else 0, if Loses(s, step) then 1 else 0;
            && Packets(s') == Wrap32(Packets(s) + store)
            && Overflows(s') == Wrap32(Overflows(s) + drop)
            && |Kept(s, step)| == (store - drop) * PACKET_SIZE
  {
    Wrapped(Packets(s));
    Wrapped(Overflows(s));
    hide RingOk, Wrap32;
    if Stores(s, step) {
      PartsKeepRest(s.stats.(packets := Wrap32(s.stats.packets + 1)), step.packet, 7);
    }
  }

  lemma WrapSum(a: int, b: int)
    ensures Wrap32(Wrap32(a) + b) == Wrap32(a + b)
  {
  }

  lemma {:induction false} PacketsCounted(s: State, steps: seq<Step>)
    requires Ok(s) && FlushFree(steps)
    ensures Packets(Run(s, steps)) == Wrap32(Packets(s) + Stored(s, steps))
    decreases steps
  {
    hide Ok, Next, Kept, Stores, Loses, Packets, Wrap32;
    if steps == [] {
      Wrapped(Packets(s));
    } else {
      var s1 := Next(s, steps[0]);
      StepCounts(s, steps[0]);
      PacketsCounted(s1, steps[1..]);
      WrapSum(Packets(s) + (if Stores(s, steps[0]) then 1 else 0), Stored(s1, steps[1..]));
    }
  }

  lemma {:induction false} OverflowsCounted(s: State, steps: seq<Step>)
    requires Ok(s) && FlushFree(steps)
    ensures Overflows(Run(s, steps)) == Wrap32(Overflows(s) + Dropped(s, steps))
    decreases steps
  {
    hide Ok, Next, Kept, Stores, Loses, Overflows, Wrap32;
    if steps == [] {
      Wrapped(Overflows(s));
    } else {
      var s1 := Next(s, steps[0]);
      StepCounts(s, steps[0]);
      OverflowsCounted(s1, steps[1..]);
      WrapSum(Overflows(s) + (if Loses(s, steps[0]) then 1 else 0), Dropped(s1, steps[1..]));
    }
  }

  // Every packet stored was kept or dropped.
  lemma {:induction false} KeptOrDropped(s: State, steps: seq<Step>)
    requires Ok(s) && FlushFree(steps)
    ensures |Accepted(s, steps)| == (Stored(s, steps) - Dropped(s, steps)) * PACKET_SIZE
    decreases steps
  {
    hide Ok, Next, Kept, Stores, Loses, Wrap32;
    if steps != [] {
      StepCounts(s, steps[0]);
      KeptOrDropped(Next(s, steps[0]), steps[1..]);
    }
  }

  lemma Wrapped(w: uint32)
    ensures Wrap32(w) == w
  {
  }

  // packet_count = packets returned + packets waiting + overflow_error_count, modulo 2^32, unless the
  // flush is still zeroing them.
  ghost predicate Balanced(f: State, steps: seq<Step>)
    requires Ok(f)
  {
    var e := Run(f, steps);
    e.flush.None? ==>
      e.stats.packets == Wrap32(|Returned(f, steps)| / PACKET_SIZE + |Waiting(e.ring)| / PACKET_SIZE
                                + e.stats.overflowErrors)
  }

  // The balance holds in every run since the latest flush began, whatever happened before it.
  lemma Conservation(s: State, before: seq<Step>, steps: seq<Step>)
    requires Ok(s) && Run(s, before).flush.None? && FlushFree(steps)
    ensures Balanced(Run(s, before + [Flush]), steps)
  {
    hide Balanced, RingOk;
    AfterFlush(s, before);
    SinceFlush(s, before, steps);
    ConservationFrom(Run(s, before + [Flush]), steps);
  }

  lemma ConservationFrom(f: State, steps: seq<Step>)
    requires Ok(f) && FlushFree(steps) && f.flush.Some?
    requires Returned(f, steps) + Waiting(Run(f, steps).ring) == Accepted(f, steps)
    ensures Balanced(f, steps)
  {
    hide Next, RingOk, Wrap32, Waiting, Returned, Accepted;
    var e := Run(f, steps);
    var stored, dropped := Stored(f, steps), Dropped(f, steps);
    var returned, waiting := |Returned(f, steps)|, |Waiting(e.ring)|;
    assert returned + waiting == |Accepted(f, steps)|;
    PacketsCounted(f, steps);
    OverflowsCounted(f, steps);
    KeptOrDropped(f, steps);
    WaitingWhole(e.ring);
    PacketBalance(stored, dropped, returned, waiting);
    WrapSum(dropped, returned / PACKET_SIZE + waiting / PACKET_SIZE);
  }

  lemma WaitingWhole(r: Ring)
    requires RingOk(r)
    ensures Whole(|Waiting(r)|)
  {
    Multiples(|r.held|, r.loan);
  }

  lemma PacketBalance(stored: nat, dropped: nat, returned: nat, waiting: nat)
    requires (stored - dropped) * PACKET_SIZE == returned + waiting
    requires Whole(waiting)
    ensures stored == returned / PACKET_SIZE + waiting / PACKET_SIZE + dropped
  {
  }
}
