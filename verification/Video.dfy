// The video receiver itself: one byte ring shared by the receive thread and the consumer, and the
// table of continuity counters. Every locked section of the library is a method, and so is every
// access made without the lock or that such an access can meet; each refines one step of the machine
// in VideoModel, in whatever state the other thread has left things. The methods named after the
// library's functions string them together and say what they amount to when nothing comes between.
module Video {
  import opened Bytes
  import opened Frame
  import opened VideoModel
  import opened VideoRuns
  import opened VideoChecks
  import opened VideoStream

  const NO_RTP: uint32 := 0xFFFF_FFFF

  predicate IsNumber(rtpSequence: uint32) {
    rtpSequence < 0x1_0000 || rtpSequence == NO_RTP
  }

  function Remembered(rtpSequence: uint32): Option<uint16>
    requires IsNumber(rtpSequence)
  {
    if rtpSequence == NO_RTP then None else Some(rtpSequence)
  }

  lemma Gap(a: nat, b: nat)
    requires Whole(a) && Whole(b) && b < a
    ensures Whole(a - b) && a - b >= PACKET_SIZE
  {
    Multiples(a, b);
  }

  // Distances between whole-packet cursors are whole packets.
  lemma CursorDistances(size: nat, head: nat, tail: nat)
    requires Whole(size) && Whole(head) && Whole(tail)
    requires head < size && tail < size
    ensures Whole(size - tail) && size - tail >= PACKET_SIZE
    ensures tail <= head ==> Whole(head - tail) && head - tail + PACKET_SIZE <= size
    ensures head < tail ==> Whole(size - tail + head) && size - tail + head + PACKET_SIZE <= size
  {
    Gap(size, tail);
    Gap(size, head);
    if tail < head {
      Gap(head, tail);
    } else if head < tail {
      Multiples(size - tail, head);
      Gap(tail, head);
    }
  }

  class VideoSock {
    var head: nat
    var tail: nat
    const buffer: array<byte>
    var advance: nat

    var packetCount: uint32
    var transportErrorCount: uint32
    var networkErrorCount: uint32
    var sequenceErrorCount: uint32
    var overflowErrorCount: uint32

    var rtpSequence: uint32
    const sequence: array<byte>

    // How far the receive thread is in an RTP check, and the consumer in a flush.
    ghost var check: Check
    ghost var flushing: Option<nat>

    ghost predicate ValidRing()
      reads `head, `tail, `advance
    {
      && Whole(buffer.Length) && buffer.Length >= 2 * PACKET_SIZE
      && Whole(head) && head < buffer.Length
      && Whole(tail) && tail < buffer.Length
      && Whole(advance) && tail + advance <= buffer.Length
      && (tail <= head ==> tail + advance <= head)
    }

    ghost predicate ValidStats()
      reads `rtpSequence
    {
      sequence.Length == PID_COUNT && IsNumber(rtpSequence)
    }

    ghost predicate Valid()
      reads `head, `tail, `advance, `rtpSequence, `check, `flushing
    {
      && ValidRing() && ValidStats()
      && (check.Forgetting? ==> check.next < PID_COUNT)
      && (flushing.Some? ==> flushing.value <= PID_COUNT)
      && buffer != sequence
    }

    // Neither a check nor a flush is going on.
    ghost predicate Quiet()
      reads `check, `flushing
    {
      check.NoCheck? && flushing.None?
    }

    // The cyclic contents from tail to head.
    ghost function Held(): seq<byte>
      requires head <= buffer.Length && tail <= buffer.Length
      reads `head, `tail, buffer
    {
      if tail <= head then buffer[tail..head] else buffer[tail..] + buffer[..head]
    }

    ghost function RingView(): (r: Ring)
      requires ValidRing()
      reads `head, `tail, `advance, buffer
      ensures RingOk(r)
    {
      CursorDistances(buffer.Length, head, tail);
      Ring(buffer.Length, Held(), advance, buffer.Length - tail)
    }

    ghost function StatsView(): Stats
      requires ValidStats()
      reads `rtpSequence, `packetCount, `transportErrorCount, `networkErrorCount, `sequenceErrorCount,
            `overflowErrorCount, sequence
    {
      Stats(Remembered(rtpSequence), sequence[..],
            packetCount, transportErrorCount, networkErrorCount, sequenceErrorCount, overflowErrorCount)
    }

    ghost function View(): (s: State)
      requires Valid()
      reads this, buffer, sequence
      ensures Ok(s)
    {
      State(RingView(), StatsView(), check, flushing)
    }

    // hdhomerun_video_create, as far as it decides about the buffer.
    static method Create(requested: nat) returns (vs: VideoSock?)
      ensures vs == null <==> requested < PACKET_SIZE
      ensures vs != null ==> fresh(vs) && fresh(vs.buffer) && fresh(vs.sequence)
      ensures vs != null ==> vs.Valid() && vs.View() == Created(requested) && vs.Quiet()
    {
      var size := requested / PACKET_SIZE * PACKET_SIZE;
      if size == 0 {
        return null;
      }
      vs := new VideoSock(size + PACKET_SIZE);
    }

    constructor (size: nat)
      requires Whole(size) && size >= 2 * PACKET_SIZE
      ensures Valid() && fresh(buffer) && fresh(sequence)
      ensures View() == State(Ring(size, [], 0, size), FlushedStats(), NoCheck, None)
    {
      buffer := new byte[size](i => 0);
      sequence := new byte[PID_COUNT](i => NO_COUNTER);
      head, tail, advance := 0, 0, 0;
      rtpSequence := NO_RTP;
      packetCount, transportErrorCount, networkErrorCount := 0, 0, 0;
      sequenceErrorCount, overflowErrorCount := 0, 0;
      check, flushing := NoCheck, None;
      new;
      assert sequence[..] == NoCounters();
    }

    // ---------------------------------------------------------------- the producer

    // hdhomerun_video_stats_ts_pkt
    method StatsTsPkt(ptr: nat)
      requires Valid() && ptr + TS_PACKET_SIZE <= buffer.Length
      modifies this`transportErrorCount, this`sequenceErrorCount, sequence
      ensures Valid() && StatsView() == TsStats(old(StatsView()), old(buffer[ptr..ptr + TS_PACKET_SIZE]))
    {
      ghost var p := buffer[ptr..ptr + TS_PACKET_SIZE];
      assert p[1] == buffer[ptr + 1] && p[2] == buffer[ptr + 2] && p[3] == buffer[ptr + 3];
      var packetIdentifier: nat := U16(buffer[ptr + 1] % 0x20, buffer[ptr + 2]);
      if packetIdentifier == NULL_PID {
        return;
      }
      if buffer[ptr + 1] / 0x80 != 0 {
        transportErrorCount := Wrap32(transportErrorCount + 1);
        sequence[packetIdentifier] := NO_COUNTER;
        return;
      }
      var counter := buffer[ptr + 3] % 0x10;
      var previous := sequence[packetIdentifier];
      sequence[packetIdentifier] := counter;
      if previous == NO_COUNTER {
        return;
      }
      if counter == (previous + 1) % 0x10 {
        return;
      }
      if counter == previous {
        return;
      }
      sequenceErrorCount := Wrap32(sequenceErrorCount + 1);
    }

    // The accesses of an RTP check, one by one.
    method ReadNumber(current: uint16) returns (previous: uint32)
      requires Valid() && check.NoCheck?
      modifies `check
      ensures Valid() && View() == Next(old(View()), Rtp(current))
      ensures IsNumber(previous) && check == Began(current, Remembered(previous))
    {
      previous := rtpSequence;
      check := Began(current, Remembered(previous));
    }

    method WriteNumber(current: uint16, previous: uint32)
      requires Valid() && IsNumber(previous) && check == Began(current, Remembered(previous))
      modifies `check, `rtpSequence
      ensures Valid() && View() == Next(old(View()), CheckOn)
      ensures check == if Follows(Remembered(previous), current) then Checked else Missed
    {
      rtpSequence := current;
      check := if Follows(Remembered(previous), current) then Checked else Missed;
    }

    method LoadErrorCount() returns (count: uint32)
      requires Valid() && check.Missed?
      modifies `check
      ensures Valid() && View() == Next(old(View()), CheckOn) && check == Loaded(count)
    {
      count := networkErrorCount;
      check := Loaded(count);
    }

    method StoreErrorCount(count: uint32)
      requires Valid() && check == Loaded(count)
      modifies `check, `networkErrorCount
      ensures Valid() && View() == Next(old(View()), CheckOn) && check == Forgetting(0)
    {
      networkErrorCount := Wrap32(count + 1);
      check := Forgetting(0);
    }

    method ForgetChecking(i: nat)
      requires Valid() && check == Forgetting(i)
      modifies `check, sequence
      ensures Valid() && View() == Next(old(View()), CheckOn)
      ensures check == if i + 1 == PID_COUNT then Checked else Forgetting(i + 1)
    {
      hide Held, RingView;
      sequence[i] := NO_COUNTER;
      check := if i + 1 == PID_COUNT then Checked else Forgetting(i + 1);
    }

    // hdhomerun_video_parse_rtp with nothing in between; the header is the first twelve bytes of the
    // datagram.
    method ParseRtp(header: seq<byte>)
      requires Valid() && check.NoCheck? && |header| >= RTP_HEADER_SIZE
      modifies `check, `rtpSequence, `networkErrorCount, sequence
      ensures Valid() && View() == Run(old(View()), CheckSteps(U16(header[2], header[3])))
      ensures check.Checked?
      ensures StatsView() == RtpStats(old(StatsView()), U16(header[2], header[3]))
    {
      hide Run, Next, Ok, StatsView, RingView, ValidRing, CheckSteps;
      ghost var start := View();
      var current := U16(header[2], header[3]);
      CheckAlone(start, current);
      CheckFirst(start, current);
      var previous := ReadNumber(current);
      RunRepeat(View(), CheckOn, CHECK_ACCESSES);
      WriteNumber(current, previous);
      if previous == NO_RTP || current == (previous + 1) % 0x1_0000 {
        CheckIsOver(View(), CHECK_ACCESSES - 1);
        return;
      }
      CountAndForget();
    }

    // What is left to do after a gap.
    method CountAndForget()
      requires Valid() && check.Missed?
      modifies `check, `networkErrorCount, sequence
      ensures Valid() && View() == Run(old(View()), Repeat(CheckOn, CHECK_ACCESSES - 1)) && check.Checked?
    {
      hide Run, Next, Ok, StatsView, RingView, ValidRing;
      ghost var start := View();
      RunRepeat(start, CheckOn, CHECK_ACCESSES - 1);
      var count := LoadErrorCount();
      RunRepeat(View(), CheckOn, CHECK_ACCESSES - 2);
      StoreErrorCount(count);
      for i := 0 to PID_COUNT
        invariant Valid()
        invariant Run(View(), Repeat(CheckOn, PID_COUNT - i)) == Run(start, Repeat(CheckOn, CHECK_ACCESSES - 1))
        invariant check == if i == PID_COUNT then Checked else Forgetting(i)
      {
        RunRepeat(View(), CheckOn, PID_COUNT - i);
        ForgetChecking(i);
      }
      CheckIsOver(View(), 0);
    }

    // The slot at the head is free.
    lemma HeadSlot()
      requires ValidRing()
      ensures head + PACKET_SIZE <= buffer.Length
      ensures head < tail ==> head + PACKET_SIZE <= tail
    {
      Multiples(buffer.Length, head);
      Multiples(tail, head);
    }

    // Copying a packet to the head disturbs nothing that is held.
    method CopyIn(p: Packet)
      requires ValidRing()
      modifies buffer
      ensures head + PACKET_SIZE <= buffer.Length
      ensures Held() == old(Held()) && buffer[head..head + PACKET_SIZE] == p
      ensures buffer[tail..tail + advance] == old(buffer[tail..tail + advance])
    {
      hide Whole, Held;
      HeadSlot();
      CopyBytes(head, p);
      StillHeld();
    }

    method CopyBytes(at: nat, bytes: seq<byte>)
      requires at + |bytes| <= buffer.Length
      modifies buffer
      ensures buffer[at..at + |bytes|] == bytes
      ensures forall i | 0 <= i < buffer.Length && !(at <= i < at + |bytes|) :: buffer[i] == old(buffer[i])
    {
      forall i | 0 <= i < |bytes| {
        buffer[at + i] := bytes[i];
      }
    }

    twostate lemma StillHeld()
      requires old(ValidRing()) && ValidRing()
      requires head == old(head) && tail == old(tail) && advance == old(advance)
      requires head + PACKET_SIZE <= buffer.Length && (head < tail ==> head + PACKET_SIZE <= tail)
      requires forall i | 0 <= i < buffer.Length && !(head <= i < head + PACKET_SIZE) :: buffer[i] == old(buffer[i])
      ensures Held() == old(Held())
      ensures buffer[tail..tail + advance] == old(buffer[tail..tail + advance])
    {
      hide Whole;
      assert head < tail ==> buffer[..head] == old(buffer[..head]) && buffer[tail..] == old(buffer[tail..]);
      assert tail <= head ==> buffer[tail..head] == old(buffer[tail..head]);
    }

    lemma PartAt(p: Packet, part: nat)
      requires head + PACKET_SIZE <= buffer.Length && buffer[head..head + PACKET_SIZE] == p && part < 7
      ensures var at := head + TS_PACKET_SIZE * part;
              buffer[at..at + TS_PACKET_SIZE] == TsPart(p, part)
    {
      var at := head + TS_PACKET_SIZE * part;
      forall i | 0 <= i < TS_PACKET_SIZE
        ensures buffer[at + i] == TsPart(p, part)[i]
      {
        assert p[TS_PACKET_SIZE * part + i] == buffer[head + (TS_PACKET_SIZE * part + i)];
      }
    }

    // The statistics over the packet at the head, whether or not it will be kept.
    method StatsPacket(ghost p: Packet)
      requires Valid() && head + PACKET_SIZE <= buffer.Length && buffer[head..head + PACKET_SIZE] == p
      modifies this`packetCount, this`transportErrorCount, this`sequenceErrorCount, sequence
      ensures Valid()
      ensures StatsView() == TsPartsStats(old(StatsView()).(packets := Wrap32(old(packetCount) + 1)), p, 7)
    {
      hide TsStats;
      packetCount := Wrap32(packetCount + 1);
      ghost var s := StatsView();
      for part := 0 to 7
        invariant Valid() && StatsView() == TsPartsStats(s, p, part)
      {
        PartAt(p, part);
        StatsTsPkt(head + TS_PACKET_SIZE * part);
      }
    }

    // The locked part of the receive thread.
    method StorePacket(p: Packet)
      requires Valid() && !Checking(check) && flushing.None?
      modifies this`head, this`packetCount, this`transportErrorCount, this`sequenceErrorCount, this`overflowErrorCount,
               this`check, buffer, sequence
      ensures Valid() && View() == Next(old(View()), Store(p)) && check.NoCheck?
      ensures buffer[tail..tail + advance] == old(buffer[tail..tail + advance])
    {
      ghost var before := View();
      StoreLocked(p);
      check := NoCheck;
      hide StoreStats, StoreRing, Held, Ok, RingOk;
      assert View() == Next(before, Store(p));
    }

    method StoreLocked(p: Packet)
      requires Valid()
      modifies this`head, this`packetCount, this`transportErrorCount, this`sequenceErrorCount, this`overflowErrorCount,
               buffer, sequence
      ensures Valid()
      ensures StatsView() == StoreStats(old(StatsView()), p, Drops(old(RingView())))
      ensures RingView() == StoreRing(old(RingView()), p)
      ensures buffer[tail..tail + advance] == old(buffer[tail..tail + advance])
    {
      hide TsPartsStats, TsStats, RingOk, Held, Whole;
      CopyIn(p);
      StatsPacket(p);
      var next := head + PACKET_SIZE;
      if next >= buffer.Length {
        next := next - buffer.Length;
      }
      DropTest(next);
      if next == tail {
        overflowErrorCount := Wrap32(overflowErrorCount + 1);
        return;
      }
      AdvanceHead(next, p);
    }

    lemma NextWhole(n: nat)
      requires Whole(n)
      ensures Whole(n + PACKET_SIZE) && Whole(0)
    {
    }

    lemma DropTest(next: nat)
      requires ValidRing() && head + PACKET_SIZE <= buffer.Length
      requires next == if head + PACKET_SIZE == buffer.Length then 0 else head + PACKET_SIZE
      ensures next == tail <==> Drops(RingView())
    {
      HeadSlot();
    }

    method AdvanceHead(next: nat, ghost p: Packet)
      requires ValidRing() && head + PACKET_SIZE <= buffer.Length && buffer[head..head + PACKET_SIZE] == p
      requires next == if head + PACKET_SIZE == buffer.Length then 0 else head + PACKET_SIZE
      requires next != tail
      modifies this`head
      ensures ValidRing() && head == next
      ensures RingView() == old(RingView()).(held := old(Held()) + p)
    {
      hide RingOk, Whole;
      HeadSlot();
      NextWhole(head);
      ghost var before := head;
      head := next;
      ghost var end := before + PACKET_SIZE;
      assert before < tail ==> buffer[..before] + buffer[before..end] == buffer[..end];
      assert tail <= before ==> buffer[tail..before] + buffer[before..end] == buffer[tail..end];
    }

    // hdhomerun_video_thread_execute over the datagrams received until termination, with nothing in
    // between. No more than a full RTP datagram is read of each; other sizes than with or without an
    // RTP header are ignored.
    method ThreadExecute(datagrams: seq<seq<byte>>)
      requires Valid() && Quiet()
      modifies this`head, this`packetCount, this`transportErrorCount, this`sequenceErrorCount, this`overflowErrorCount,
               this`rtpSequence, this`networkErrorCount, this`check, buffer, sequence
      ensures Valid() && View() == Run(old(View()), StepsOfAll(datagrams)) && Quiet()
      ensures Held() == Filled(old(Held()), buffer.Length, datagrams)
      ensures packetCount == Wrap32(old(packetCount) + Carrying(datagrams))
      ensures buffer[tail..tail + advance] == old(buffer[tail..tail + advance])
    {
      hide Run, Held, Ok, Filled, Carrying, Wrap32, View, ValidRing, ValidStats, StepsOfAll;
      ghost var before := View();
      ViewParts();
      ReceiveAll(datagrams);
      ViewParts();
      StreamFills(before, NOTHING, datagrams);
    }

    lemma ViewParts()
      requires Valid()
      ensures View().ring.held == Held() && View().ring.size == buffer.Length && View().stats.packets == packetCount
      ensures Quiet() ==> Idle(View())
    {
    }

    method ReceiveAll(datagrams: seq<seq<byte>>)
      requires Valid() && Quiet()
      modifies this`head, this`packetCount, this`transportErrorCount, this`sequenceErrorCount, this`overflowErrorCount,
               this`rtpSequence, this`networkErrorCount, this`check, buffer, sequence
      ensures Valid() && View() == Run(old(View()), StepsOfAll(datagrams)) && Quiet()
      ensures buffer[tail..tail + advance] == old(buffer[tail..tail + advance])
    {
      hide Next, Ok, StepsOf, Cut, Held, StatsView, RingView;
      var round := 0;
      assert datagrams[..0] == [];
      while round < |datagrams|
        invariant 0 <= round <= |datagrams|
        invariant Valid() && View() == Run(old(View()), StepsOfAll(datagrams[..round])) && Quiet()
        invariant buffer[tail..tail + advance] == old(buffer[tail..tail + advance])
      {
        ReceiveOne(Cut(datagrams[round]));
        ghost var done := StepsOfAll(datagrams[..round]);
        RunAppend(old(View()), done, StepsOf(Cut(datagrams[round])));
        assert datagrams[..round + 1][..round] == datagrams[..round];
        round := round + 1;
      }
      assert datagrams[..round] == datagrams;
    }

    // One turn of the loop.
    method ReceiveOne(datagram: seq<byte>)
      requires Valid() && Quiet() && |datagram| <= RTP_HEADER_SIZE + PACKET_SIZE
      modifies this`head, this`packetCount, this`transportErrorCount, this`sequenceErrorCount, this`overflowErrorCount,
               this`rtpSequence, this`networkErrorCount, this`check, buffer, sequence
      ensures Valid() && View() == Run(old(View()), StepsOf(datagram)) && Quiet()
      ensures buffer[tail..tail + advance] == old(buffer[tail..tail + advance])
    {
      hide Next, Ok, Held, StatsView, RingView, CheckSteps, Run;
      var data := datagram;
      ghost var s := View();
      if |data| == RTP_HEADER_SIZE + PACKET_SIZE {
        ParseRtp(datagram);
        data := datagram[RTP_HEADER_SIZE..];
        RunAppend(s, CheckSteps(U16(datagram[2], datagram[3])), [Store(data)]);
      }
      if |data| != PACKET_SIZE {
        RunNothing(s);
        return;
      }
      ghost var s1 := View();
      StorePacket(data);
      RunOne(s1, Store(data));
    }

    // ---------------------------------------------------------------- the consumer

    // hdhomerun_video_recv: where the region starts in the buffer, if there is one, and its size.
    method RecvRegion(maxSize: nat) returns (result: Option<nat>, actualSize: nat)
      requires Valid() && flushing.None?
      modifies this`tail, this`advance
      ensures Valid() && View() == Next(old(View()), Recv(maxSize))
      ensures Lent(result, actualSize)
    {
      GiveBack();
      result, actualSize := Lend(maxSize);
    }

    // What the caller gets: no pointer and size zero, or a pointer to the region on loan.
    ghost predicate Lent(result: Option<nat>, size: nat)
      requires ValidRing()
      reads `head, `tail, `advance, buffer
    {
      match result
      case None => size == 0 && Region(RingView()) == []
      case Some(at) =>
        && at == tail && size == advance && 0 < size
        && buffer[at..at + size] == Region(RingView())
    }

    method Lend(maxSize: nat) returns (result: Option<nat>, actualSize: nat)
      requires ValidRing() && advance == 0
      modifies this`advance
      ensures ValidRing()
      ensures var r := old(RingView());
              RingView() == r.(loan := Min(maxSize / PACKET_SIZE * PACKET_SIZE, Min(|r.held|, r.toEnd)))
      ensures Lent(result, actualSize)
    {
      hide RingOk, Held, Whole;
      var size := RegionSize(maxSize);
      if size == 0 {
        return None, 0;
      }
      advance := size;
      return Some(tail), size;
    }

    // Nothing, the size asked for in whole packets, or all there is up to the end of the ring.
    method RegionSize(maxSize: nat) returns (size: nat)
      requires ValidRing()
      ensures size == Min(maxSize / PACKET_SIZE * PACKET_SIZE, Min(|Held()|, buffer.Length - tail))
      ensures Whole(size) && (tail <= head ==> tail + size <= head)
      ensures Held()[..size] == buffer[tail..tail + size]
    {
      hide Held, Whole;
      CursorDistances(buffer.Length, head, tail);
      HeldStart(0);
      NextWhole(head);
      if head == tail {
        return 0;
      }
      size := maxSize / PACKET_SIZE * PACKET_SIZE;
      if size == 0 {
        return;
      }
      WholeMultiple(maxSize);
      var avail: nat;
      if head > tail {
        avail := head - tail;
      } else {
        avail := buffer.Length - tail;
      }
      if size > avail {
        size := avail;
      }
      HeldStart(size);
    }

    // What is held starts at the tail and runs on to the head or the end of the ring.
    lemma HeldStart(n: nat)
      requires ValidRing() && n <= if tail <= head then head - tail else buffer.Length - tail
      ensures |Held()| == if tail <= head then head - tail else buffer.Length - tail + head
      ensures Held()[..n] == buffer[tail..tail + n]
    {
    }

    lemma WholeMultiple(maxSize: nat)
      ensures Whole(maxSize / PACKET_SIZE * PACKET_SIZE)
    {
    }

    // The consumer's previous region goes back to the producer.
    method GiveBack()
      requires ValidRing()
      modifies this`tail, this`advance
      ensures ValidRing() && RingView() == Settle(old(RingView()))
    {
      hide RingOk, Whole;
      CursorDistances(buffer.Length, head, tail);
      NextWhole(tail);
      Multiples(tail, advance);
      if advance > 0 {
        ghost var before := Held();
        ghost var given := advance;
        tail := tail + advance;
        if tail >= buffer.Length {
          tail := tail - buffer.Length;
        }
        advance := 0;
        assert Held() == before[given..];
      }
    }

    // The writes of a flush: the ring and the remembered number, the continuity counters one by one,
    // and the counts.
    method EmptyRing()
      requires Valid() && flushing.None?
      modifies `tail, `advance, `rtpSequence, `flushing
      ensures Valid() && View() == Next(old(View()), Flush) && flushing == Some(0)
    {
      hide Held;
      CursorDistances(buffer.Length, head, tail);
      HeldSize();
      tail := head;
      advance := 0;
      HeldSize();
      rtpSequence := NO_RTP;
      flushing := Some(0);
    }

    lemma HeldSize()
      requires ValidRing()
      ensures |Held()| == if tail <= head then head - tail else buffer.Length - tail + head
    {
    }

    method ForgetFlushing(i: nat)
      requires Valid() && flushing == Some(i) && i < PID_COUNT
      modifies `flushing, sequence
      ensures Valid() && View() == Next(old(View()), FlushOn) && flushing == Some(i + 1)
    {
      hide Held, RingView;
      sequence[i] := NO_COUNTER;
      flushing := Some(i + 1);
    }

    method ZeroErrorCounts()
      requires Valid() && flushing == Some(PID_COUNT)
      modifies `flushing, `packetCount, `transportErrorCount, `networkErrorCount, `sequenceErrorCount,
               `overflowErrorCount
      ensures Valid() && View() == Next(old(View()), FlushOn) && flushing.None?
    {
      packetCount := 0;
      transportErrorCount := 0;
      networkErrorCount := 0;
      sequenceErrorCount := 0;
      overflowErrorCount := 0;
      flushing := None;
    }

    // hdhomerun_video_flush with nothing in between, at whatever point of a check.
    method FlushAll()
      requires Valid() && flushing.None?
      modifies `tail, `advance, `rtpSequence, `flushing, `packetCount, `transportErrorCount, `networkErrorCount,
               `sequenceErrorCount, `overflowErrorCount, sequence
      ensures Valid() && flushing.None? && View() == Run(old(View()), FlushSteps())
      ensures StatsView() == FlushedStats() && RingView() == FlushRing(old(RingView()))
    {
      hide Run, Next, Ok, StatsView, RingView, ValidRing, FlushSteps;
      ghost var start := View();
      FlushAlone(start);
      FlushFirst(start);
      EmptyRing();
      for i := 0 to PID_COUNT
        invariant Valid() && Run(View(), Repeat(FlushOn, PID_COUNT + 1 - i)) == Run(start, FlushSteps())
        invariant flushing == Some(i)
      {
        RunRepeat(View(), FlushOn, PID_COUNT + 1 - i);
        ForgetFlushing(i);
      }
      RunRepeat(View(), FlushOn, 1);
      ZeroErrorCounts();
      RunNothing(View());
      assert Repeat(FlushOn, 0) == [];
    }
  }
}
