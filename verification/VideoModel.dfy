// The video receiver as a state machine. A locked store and a locked recv are one step each. The RTP
// check of the producer takes no lock: each of its reads and writes of shared memory is a step of its
// own, and so is each write of a flush that the check could meet. The ring appears as the byte
// sequence it holds; the class in Video.dfy refines this machine.
module VideoModel {
  import opened Bytes
  import opened Frame

  const TS_PACKET_SIZE: nat := 188
  const PACKET_SIZE: nat := 7 * 188
  const PID_COUNT: nat := 0x2000
  const NULL_PID: nat := 0x1FFF
  const NO_COUNTER: byte := 0xFF

  type Packet = p: seq<byte> | |p| == PACKET_SIZE witness seq(PACKET_SIZE, i => 0)
  type TsPacket = p: seq<byte> | |p| == TS_PACKET_SIZE witness seq(TS_PACKET_SIZE, i => 0)
  type CounterTable = t: seq<byte> | |t| == PID_COUNT witness seq(PID_COUNT, i => NO_COUNTER)

  // Section 2.4.3.3 of ISO/IEC 13818-1.
  function Pid(p: TsPacket): (pid: nat)
    ensures pid < PID_COUNT
  {
    U16(p[1] % 0x20, p[2])
  }

  predicate TransportError(p: TsPacket) {
    p[1] / 0x80 != 0
  }

  function Counter(p: TsPacket): (c: byte)
    ensures c < 16
  {
    p[3] % 0x10
  }

  // A transport stream header put together from its fields reads back as PID, error indicator and
  // continuity counter.
  lemma HeaderFields(p: TsPacket, error: bool, start: bool, priority: bool, pid: nat, scrambling: nat, adaptation: nat,
                     counter: nat)
    requires pid < 0x2000 && scrambling < 4 && adaptation < 4 && counter < 16
    requires p[1] == (if error then 0x80 else 0) + (if start then 0x40 else 0) + (if priority then 0x20 else 0)
                     + pid / 0x100
    requires p[2] == pid % 0x100 && p[3] == scrambling * 0x40 + adaptation * 0x10 + counter
    ensures Pid(p) == pid && (TransportError(p) <==> error) && Counter(p) == counter
  {
  }

  // ---------------------------------------------------------------- statistics

  // rtp is the last RTP sequence number since the flush, if any.
  datatype Stats = Stats(
    rtp: Option<uint16>,
    counters: CounterTable,
    packets: uint32,
    transportErrors: uint32,
    networkErrors: uint32,
    sequenceErrors: uint32,
    overflowErrors: uint32)

  function NoCounters(): (t: CounterTable)
    ensures forall i | 0 <= i < PID_COUNT :: t[i] == NO_COUNTER
  {
    seq(PID_COUNT, i => NO_COUNTER)
  }

  function FlushedStats(): Stats {
    Stats(None, NoCounters(), 0, 0, 0, 0, 0)
  }

  // No gap lies between the number remembered and the next one.
  predicate Follows(previous: Option<uint16>, sequence: uint16) {
    previous == None || sequence == (previous.value + 1) % 0x1_0000
  }

  // An RTP check that nothing interrupts.
  function RtpStats(s: Stats, sequence: uint16): Stats {
    if Follows(s.rtp, sequence) then s.(rtp := Some(sequence))
    else s.(rtp := Some(sequence), networkErrors := Wrap32(s.networkErrors + 1), counters := NoCounters())
  }

  function TsStats(s: Stats, p: TsPacket): Stats {
    var pid := Pid(p);
    if pid == NULL_PID then s
    else if TransportError(p) then
      s.(transportErrors := Wrap32(s.transportErrors + 1), counters := s.counters[pid := NO_COUNTER])
    else
      var previous := s.counters[pid];
      var s' := s.(counters := s.counters[pid := Counter(p)]);
      if previous == NO_COUNTER || Counter(p) == (previous + 1) % 16 || Counter(p) == previous then s'
      else s'.(sequenceErrors := Wrap32(s.sequenceErrors + 1))
  }

  // The i-th of the seven transport stream packets in a packet.
  function TsPart(p: Packet, i: nat): TsPacket
    requires i < 7
  {
    p[TS_PACKET_SIZE * i..TS_PACKET_SIZE * (i + 1)]
  }

  function TsPartsStats(s: Stats, p: Packet, n: nat): Stats
    requires n <= 7
    decreases n
  {
    if n == 0 then s else TsStats(TsPartsStats(s, p, n - 1), TsPart(p, n - 1))
  }

  lemma TsKeepsRest(s: Stats, p: TsPacket)
    ensures var s' := TsStats(s, p);
            && s'.packets == s.packets && s'.overflowErrors == s.overflowErrors
            && s'.rtp == s.rtp && s'.networkErrors == s.networkErrors
  {
  }

  // The statistics of transport stream packets touch nothing else.
  lemma {:induction false} PartsKeepRest(s: Stats, p: Packet, n: nat)
    requires n <= 7
    ensures var s' := TsPartsStats(s, p, n);
            && s'.packets == s.packets && s'.overflowErrors == s.overflowErrors
            && s'.rtp == s.rtp && s'.networkErrors == s.networkErrors
    decreases n
  {
    hide TsStats;
    if n > 0 {
      PartsKeepRest(s, p, n - 1);
      TsKeepsRest(TsPartsStats(s, p, n - 1), TsPart(p, n - 1));
    }
  }

  function StoreStats(s: Stats, p: Packet, dropped: bool): Stats {
    var s' := TsPartsStats(s.(packets := Wrap32(s.packets + 1)), p, 7);
    if dropped then s'.(overflowErrors := Wrap32(s'.overflowErrors + 1)) else s'
  }

  // ---------------------------------------------------------------- the ring

  // Every size and cursor of the ring counts whole packets.
  predicate Whole(n: int) {
    n % PACKET_SIZE == 0
  }

  // size: bytes of the ring; held: what lies between tail and head; loan: how much of that the
  // consumer has been handed; toEnd: bytes from the tail to the end of the ring.
  datatype Ring = Ring(size: nat, held: seq<byte>, loan: nat, toEnd: nat)

  ghost predicate RingOk(r: Ring) {
    && Whole(r.size) && r.size >= 2 * PACKET_SIZE
    && Whole(|r.held|) && |r.held| + PACKET_SIZE <= r.size
    && Whole(r.loan) && r.loan <= |r.held| && r.loan <= r.toEnd
    && Whole(r.toEnd) && 0 < r.toEnd <= r.size
  }

  function Waiting(r: Ring): seq<byte>
    requires RingOk(r)
  {
    r.held[r.loan..]
  }

  // A packet that would make the ring full is not kept.
  predicate Drops(r: Ring) {
    |r.held| + PACKET_SIZE == r.size
  }

  function StoreRing(r: Ring, p: Packet): (r': Ring)
    requires RingOk(r)
    ensures RingOk(r') && r'.size == r.size
  {
    Multiples(|r.held|, PACKET_SIZE);
    if Drops(r) then r else r.(held := r.held + p)
  }

  lemma Multiples(a: nat, b: nat)
    requires Whole(a) && Whole(b)
    ensures Whole(a + b)
    ensures Whole(a - b)
  {
  }

  // The consumer gives back its loan.
  function Settle(r: Ring): (r': Ring)
    requires RingOk(r)
    ensures RingOk(r') && r'.size == r.size
  {
    Multiples(|r.held|, r.loan);
    Multiples(r.toEnd, r.loan);
    r.(held := Waiting(r), loan := 0, toEnd := if r.loan == r.toEnd then r.size else r.toEnd - r.loan)
  }

  function RecvRing(r: Ring, max: nat): (r': Ring)
    requires RingOk(r)
    ensures RingOk(r') && r'.size == r.size
  {
    var s := Settle(r);
    var whole := max / PACKET_SIZE * PACKET_SIZE;
    assert Whole(whole);
    s.(loan := Min(whole, Min(|s.held|, s.toEnd)))
  }

  function Region(r: Ring): seq<byte>
    requires RingOk(r)
  {
    r.held[..r.loan]
  }

  // ---------------------------------------------------------------- the flush of the ring

  // From the head to the end of the ring.
  function HeadToEnd(toEnd: nat, held: nat, size: nat): (e: nat)
    requires Whole(toEnd) && Whole(held) && Whole(size)
    requires held + PACKET_SIZE <= size && 0 < toEnd <= size
    ensures Whole(e) && 0 < e <= size
  {
    Multiples(toEnd, held);
    Multiples(toEnd + size, held);
    if toEnd > held then toEnd - held else toEnd - held + size
  }

  // The ring position a flush leaves behind is where the head was.
  function FlushRing(r: Ring): (r': Ring)
    requires RingOk(r)
    ensures RingOk(r') && r'.size == r.size
  {
    r.(held := [], loan := 0, toEnd := HeadToEnd(r.toEnd, |r.held|, r.size))
  }

  // ---------------------------------------------------------------- the machine

  // How far the producer's RTP check has got: the remembered number is read, a gap is seen and the
  // new number written, the error counter is loaded, the error counter is stored and the continuity
  // counters up to `next` forgotten. After a check the packet is stored before anything else.
  datatype Check =
    | NoCheck
    | Began(sequence: uint16, previous: Option<uint16>)
    | Missed
    | Loaded(count: uint32)
    | Forgetting(next: nat)
    | Checked

  // `flush` is how many continuity counters a flush in progress has forgotten.
  datatype State = State(ring: Ring, stats: Stats, check: Check, flush: Option<nat>)

  // Rtp reads the remembered number for a new header, CheckOn makes the check's next access; Flush
  // empties the ring and forgets the remembered number, FlushOn makes the flush's next write. Of the
  // counts a flush zeroes in one step only the network errors are ever touched without the lock.
  datatype Step = Rtp(sequence: uint16) | CheckOn | Store(packet: Packet) | Recv(max: nat) | Flush | FlushOn

  ghost predicate Ok(s: State) {
    && RingOk(s.ring)
    && (s.check.Forgetting? ==> s.check.next < PID_COUNT)
    && (s.flush.Some? ==> s.flush.value <= PID_COUNT)
  }

  predicate Checking(c: Check) {
    !c.NoCheck? && !c.Checked?
  }

  // The producer does one thing after another; store, recv and flush exclude each other by the lock.
  predicate Enabled(s: State, step: Step) {
    match step
    case Rtp(_) => s.check.NoCheck?
    case CheckOn => Checking(s.check)
    case Store(_) => !Checking(s.check) && s.flush.None?
    case Recv(_) => s.flush.None?
    case Flush => s.flush.None?
    case FlushOn => s.flush.Some?
  }

  function Forget(s: Stats, i: nat): Stats
    requires i < PID_COUNT
  {
    s.(counters := s.counters[i := NO_COUNTER])
  }

  function CheckStep(s: State): (s': State)
    requires Ok(s) && Checking(s.check)
    ensures Ok(s') && s'.ring == s.ring && s'.flush == s.flush
  {
    match s.check
    case Began(sequence, previous) =>
      s.(stats := s.stats.(rtp := Some(sequence)), check := if Follows(previous, sequence) then Checked else Missed)
    case Missed => s.(check := Loaded(s.stats.networkErrors))
    case Loaded(count) => s.(stats := s.stats.(networkErrors := Wrap32(count + 1)), check := Forgetting(0))
    case Forgetting(i) =>
      s.(stats := Forget(s.stats, i), check := if i + 1 == PID_COUNT then Checked else Forgetting(i + 1))
  }

  function ZeroCounts(s: Stats): Stats {
    Stats(s.rtp, s.counters, 0, 0, 0, 0, 0)
  }

  function FlushStep(s: State): (s': State)
    requires Ok(s) && s.flush.Some?
    ensures Ok(s') && s'.ring == s.ring && s'.check == s.check
  {
    var i := s.flush.value;
    if i < PID_COUNT then s.(stats := Forget(s.stats, i), flush := Some(i + 1))
    else s.(stats := ZeroCounts(s.stats), flush := None)
  }

  function Next(s: State, step: Step): (s': State)
    requires Ok(s)
    ensures Ok(s') && s'.ring.size == s.ring.size
  {
    if !Enabled(s, step) then s
    else
      match step
      case Rtp(sequence) => s.(check := Began(sequence, s.stats.rtp))
      case CheckOn => CheckStep(s)
      case Store(p) =>
        s.(ring := StoreRing(s.ring, p), stats := StoreStats(s.stats, p, Drops(s.ring)), check := NoCheck)
      case Recv(max) => s.(ring := RecvRing(s.ring, max))
      case Flush => s.(ring := FlushRing(s.ring), stats := s.stats.(rtp := None), flush := Some(0))
      case FlushOn => FlushStep(s)
  }

  // A receiver just created for a buffer of the requested number of bytes.
  function Created(requested: nat): (s: State)
    requires requested >= PACKET_SIZE
    ensures Ok(s)
  {
    var size := requested / PACKET_SIZE * PACKET_SIZE + PACKET_SIZE;
    State(Ring(size, [], 0, size), FlushedStats(), NoCheck, None)
  }
}
