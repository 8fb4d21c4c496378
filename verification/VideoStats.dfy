// What the three error counters of the video receiver count, stated over the whole history since
// the last flush, and the proof that the tests made on the receiver's tables are the reference tests.
module VideoStats {
  import opened Bytes
  import opened VideoModel

  // The history: one event per RTP header and one per transport stream packet, in arrival order.
  datatype Event = Header(sequence: uint16) | Ts(packet: TsPacket)
  type History = seq<Event>

  // ---------------------------------------------------------------- reference definitions

  ghost predicate LastHeader(past: History, j: nat) {
    j < |past| && past[j].Header? && forall k | j < k < |past| :: !past[k].Header?
  }

  // The header e does not follow the header before it (section 5.1 of RFC 3550: sequence numbers go
  // up by one, modulo 65536).
  ghost predicate Gap(previous: Event, e: Event) {
    previous.Header? && e.Header? && e.sequence != (previous.sequence + 1) % 0x1_0000
  }

  ghost predicate NetworkError(past: History, e: Event) {
    exists j: nat :: LastHeader(past, j) && Gap(past[j], e)
  }

  predicate OfPid(e: Event, pid: nat) {
    e.Ts? && pid != NULL_PID && Pid(e.packet) == pid
  }

  predicate Clean(e: Event, pid: nat) {
    OfPid(e, pid) && !TransportError(e.packet)
  }

  predicate Damaged(e: Event, pid: nat) {
    OfPid(e, pid) && TransportError(e.packet)
  }

  // A packet in error restarts its own PID, a gap in the RTP numbering restarts every PID.
  ghost predicate Restarts(past: History, e: Event, pid: nat) {
    Damaged(e, pid) || NetworkError(past, e)
  }

  // Event k neither sets nor restarts the PID.
  ghost predicate Silent(past: History, k: nat, pid: nat)
    requires k < |past|
  {
    !Clean(past[k], pid) && !Restarts(past[..k], past[k], pid)
  }

  // Packet j is the one the next packet of the PID has to continue.
  ghost predicate Predecessor(past: History, j: nat, pid: nat) {
    j < |past| && Clean(past[j], pid) && forall k | j < k < |past| :: Silent(past, k, pid)
  }

  predicate Skips(previous: Event, e: Event) {
    && previous.Ts? && e.Ts?
    && Counter(e.packet) != Counter(previous.packet)
    && Counter(e.packet) != (Counter(previous.packet) + 1) % 16
  }

  ghost predicate SequenceError(past: History, e: Event) {
    exists j: nat, pid: nat :: Predecessor(past, j, pid) && Clean(e, pid) && Skips(past[j], e)
  }

  ghost predicate DamagedPacket(e: Event) {
    e.Ts? && Damaged(e, Pid(e.packet))
  }

  datatype Kind = Network | Sequence | Transport

  ghost predicate Occurs(kind: Kind, past: History, e: Event) {
    match kind
    case Network => NetworkError(past, e)
    case Sequence => SequenceError(past, e)
    case Transport => DamagedPacket(e)
  }

  // How many events of the history are errors of the kind.
  ghost function Count(kind: Kind, h: History): nat {
    if h == [] then 0
    else
      var past, e := h[..|h| - 1], h[|h| - 1];
      Count(kind, past) + if Occurs(kind, past, e) then 1 else 0
  }

  lemma CountAppend(kind: Kind, h: History, e: Event)
    ensures Count(kind, h + [e]) == Count(kind, h) + if Occurs(kind, h, e) then 1 else 0
  {
    assert (h + [e])[..|h|] == h;
  }

  // ---------------------------------------------------------------- what the receiver remembers

  // `value` is the sequence number of the latest header, if there is one.
  ghost predicate IsLastRtp(h: History, value: Option<uint16>) {
    match value
    case None => forall j: nat :: !LastHeader(h, j)
    case Some(v) => exists j: nat :: LastHeader(h, j) && h[j].sequence == v
  }

  // `value` is what the next packet of the PID will be compared with.
  ghost predicate IsLastCounter(h: History, pid: nat, value: byte) {
    if value == NO_COUNTER then forall j: nat :: !Predecessor(h, j, pid)
    else exists j: nat :: Predecessor(h, j, pid) && Counter(h[j].packet) == value
  }

  ghost predicate TracksCounters(s: Stats, h: History) {
    forall pid | 0 <= pid < NULL_PID :: IsLastCounter(h, pid, s.counters[pid])
  }

  ghost predicate CountsTs(s: Stats, h: History) {
    s.sequenceErrors == Wrap32(Count(Sequence, h)) && s.transportErrors == Wrap32(Count(Transport, h))
  }

  // The next packet of every PID starts afresh.
  ghost predicate AllRestarted(h: History) {
    forall pid | 0 <= pid < NULL_PID :: IsLastCounter(h, pid, NO_COUNTER)
  }

  lemma WrapNext(n: nat)
    ensures Wrap32(Wrap32(n) + 1) == Wrap32(n + 1)
  {
  }

  lemma HeaderIsLast(h: History, sequence: uint16)
    ensures LastHeader(h + [Header(sequence)], |h|)
    ensures IsLastRtp(h + [Header(sequence)], Some(sequence))
  {
    var g := h + [Header(sequence)];
    assert g[|h|] == Header(sequence);
  }

  lemma OtherKeepsRtp(h: History, e: Event, value: Option<uint16>)
    requires !e.Header? && IsLastRtp(h, value)
    ensures IsLastRtp(h + [e], value)
  {
    var g := h + [e];
    match value
    case None =>
      forall j: nat
        ensures !LastHeader(g, j)
      {
        if LastHeader(g, j) {
          assert g[j] == h[j];
          forall k | j < k < |h|
            ensures !h[k].Header?
          {
            assert g[k] == h[k];
          }
          assert LastHeader(h, j);
        }
      }
    case Some(v) =>
      var j: nat :| LastHeader(h, j) && h[j].sequence == v;
      assert LastHeader(g, j);
  }

  lemma LastHeaderUnique(h: History, i: nat, j: nat)
    requires LastHeader(h, i) && LastHeader(h, j)
    ensures i == j
  {
  }

  lemma PredecessorUnique(h: History, i: nat, j: nat, pid: nat)
    requires Predecessor(h, i, pid) && Predecessor(h, j, pid)
    ensures i == j
  {
    assert i < j ==> !Silent(h, j, pid);
    assert j < i ==> !Silent(h, i, pid);
  }

  // ---------------------------------------------------------------- one event

  lemma SilentLocal(h: History, e: Event, k: nat, pid: nat)
    requires k < |h|
    ensures Silent(h + [e], k, pid) == Silent(h, k, pid)
  {
    assert (h + [e])[..k] == h[..k] && (h + [e])[k] == h[k];
  }

  lemma SilentLast(h: History, e: Event, pid: nat)
    ensures Silent(h + [e], |h|, pid) <==> !Clean(e, pid) && !Restarts(h, e, pid)
  {
    assert (h + [e])[..|h|] == h && (h + [e])[|h|] == e;
  }

  lemma PredecessorStep(h: History, e: Event, j: nat, pid: nat)
    ensures Predecessor(h + [e], j, pid) <==>
              if j == |h| then Clean(e, pid) else Predecessor(h, j, pid) && !Clean(e, pid) && !Restarts(h, e, pid)
  {
    var g := h + [e];
    SilentLast(h, e, pid);
    if j < |h| {
      assert g[j] == h[j];
      forall k | j < k < |h|
        ensures Silent(g, k, pid) == Silent(h, k, pid)
      {
        SilentLocal(h, e, k, pid);
      }
      if Predecessor(g, j, pid) {
        assert Silent(g, |h|, pid);
        assert forall k | j < k < |h| :: Silent(g, k, pid);
      }
    }
  }

  lemma CounterStep(h: History, e: Event, pid: nat, before: byte, after: byte)
    requires IsLastCounter(h, pid, before)
    requires after == if Clean(e, pid) then Counter(e.packet)
                      else if Restarts(h, e, pid) then NO_COUNTER else before
    ensures IsLastCounter(h + [e], pid, after)
  {
    var g := h + [e];
    forall j: nat
      ensures Predecessor(g, j, pid) <==>
                if j == |h| then Clean(e, pid) else Predecessor(h, j, pid) && !Clean(e, pid) && !Restarts(h, e, pid)
    {
      PredecessorStep(h, e, j, pid);
    }
    if Clean(e, pid) {
      assert Predecessor(g, |h|, pid) && g[|h|] == e;
    } else if after != NO_COUNTER {
      var j: nat :| Predecessor(h, j, pid) && Counter(h[j].packet) == before;
      assert Predecessor(g, j, pid) && g[j] == h[j];
    }
  }

  // The receiver's test for a gap is the reference test.
  lemma RtpTest(h: History, last: Option<uint16>, sequence: uint16)
    requires IsLastRtp(h, last)
    ensures NetworkError(h, Header(sequence))
       <==> last != None && sequence != (last.value + 1) % 0x1_0000
  {
    if last != None {
      var j: nat :| LastHeader(h, j) && h[j].sequence == last.value;
      if NetworkError(h, Header(sequence)) {
        var i: nat :| LastHeader(h, i) && Gap(h[i], Header(sequence));
        LastHeaderUnique(h, i, j);
      } else {
        assert !Gap(h[j], Header(sequence));
      }
    }
  }

  // A header counts as a network error or not at all.
  lemma HeaderCounts(h: History, sequence: uint16)
    ensures Count(Sequence, h + [Header(sequence)]) == Count(Sequence, h)
    ensures Count(Transport, h + [Header(sequence)]) == Count(Transport, h)
    ensures Count(Network, h + [Header(sequence)])
         == Count(Network, h) + if NetworkError(h, Header(sequence)) then 1 else 0
  {
    var e := Header(sequence);
    CountAppend(Network, h, e);
    CountAppend(Sequence, h, e);
    CountAppend(Transport, h, e);
    assert !SequenceError(h, e);
  }

  // A gap restarts every PID, any other header none.
  lemma HeaderRestarts(s: Stats, h: History, sequence: uint16)
    requires TracksCounters(s, h)
    ensures NetworkError(h, Header(sequence)) ==> AllRestarted(h + [Header(sequence)])
    ensures !NetworkError(h, Header(sequence)) ==> TracksCounters(s, h + [Header(sequence)])
  {
    var e := Header(sequence);
    forall pid | 0 <= pid < NULL_PID
      ensures NetworkError(h, e) ==> IsLastCounter(h + [e], pid, NO_COUNTER)
      ensures !NetworkError(h, e) ==> IsLastCounter(h + [e], pid, s.counters[pid])
    {
      CounterStep(h, e, pid, s.counters[pid], if NetworkError(h, e) then NO_COUNTER else s.counters[pid]);
    }
  }

  // The receiver's test for a skipped packet is the reference test.
  lemma SequenceTest(h: History, p: TsPacket, previous: byte)
    requires Pid(p) != NULL_PID && !TransportError(p) && IsLastCounter(h, Pid(p), previous)
    ensures SequenceError(h, Ts(p))
       <==> previous != NO_COUNTER && Counter(p) != previous && Counter(p) != (previous + 1) % 16
  {
    var e := Ts(p);
    if previous != NO_COUNTER {
      var j: nat :| Predecessor(h, j, Pid(p)) && Counter(h[j].packet) == previous;
      if SequenceError(h, e) {
        var i: nat, pid: nat :| Predecessor(h, i, pid) && Clean(e, pid) && Skips(h[i], e);
        PredecessorUnique(h, i, j, pid);
      } else {
        assert Clean(e, Pid(p)) && !Skips(h[j], e);
      }
    } else {
      forall j: nat, pid: nat
        ensures !(Predecessor(h, j, pid) && Clean(e, pid))
      {
      }
    }
  }

  lemma NoGapInTs(h: History, p: TsPacket)
    ensures !NetworkError(h, Ts(p))
    ensures TransportError(p) || Pid(p) == NULL_PID ==> !SequenceError(h, Ts(p))
  {
  }

  lemma TsTracks(s: Stats, h: History, p: TsPacket)
    requires TracksCounters(s, h) && CountsTs(s, h)
    ensures TracksCounters(TsStats(s, p), h + [Ts(p)]) && CountsTs(TsStats(s, p), h + [Ts(p)])
    ensures Count(Network, h + [Ts(p)]) == Count(Network, h)
  {
    hide IsLastCounter, NetworkError, SequenceError, Count, Wrap32;
    var e := Ts(p);
    var s' := TsStats(s, p);
    NoGapInTs(h, p);
    forall pid | 0 <= pid < NULL_PID
      ensures IsLastCounter(h + [e], pid, s'.counters[pid])
    {
      CounterStep(h, e, pid, s.counters[pid], s'.counters[pid]);
    }
    CountAppend(Network, h, e);
    CountAppend(Sequence, h, e);
    CountAppend(Transport, h, e);
    WrapNext(Count(Sequence, h));
    WrapNext(Count(Transport, h));
    if Pid(p) != NULL_PID && !TransportError(p) {
      SequenceTest(h, p, s.counters[Pid(p)]);
    }
  }

  // ---------------------------------------------------------------- whole packets

  function Parts(p: Packet, n: nat): History
    requires n <= 7
  {
    if n == 0 then [] else Parts(p, n - 1) + [Ts(TsPart(p, n - 1))]
  }

  lemma {:induction false} PartsTrack(s: Stats, h: History, p: Packet, n: nat)
    requires TracksCounters(s, h) && CountsTs(s, h) && n <= 7
    ensures TracksCounters(TsPartsStats(s, p, n), h + Parts(p, n)) && CountsTs(TsPartsStats(s, p, n), h + Parts(p, n))
    ensures Count(Network, h + Parts(p, n)) == Count(Network, h)
    decreases n
  {
    hide TracksCounters, CountsTs, TsStats, Count;
    if n == 0 {
      assert h + Parts(p, 0) == h;
    } else {
      PartsTrack(s, h, p, n - 1);
      TsTracks(TsPartsStats(s, p, n - 1), h + Parts(p, n - 1), TsPart(p, n - 1));
      assert h + Parts(p, n) == h + Parts(p, n - 1) + [Ts(TsPart(p, n - 1))];
    }
  }

  lemma {:induction false} PartsKeepRtp(h: History, p: Packet, n: nat, value: Option<uint16>)
    requires IsLastRtp(h, value) && n <= 7
    ensures IsLastRtp(h + Parts(p, n), value)
    decreases n
  {
    hide IsLastRtp;
    if n == 0 {
      assert h + Parts(p, 0) == h;
    } else {
      PartsKeepRtp(h, p, n - 1, value);
      OtherKeepsRtp(h + Parts(p, n - 1), Ts(TsPart(p, n - 1)), value);
      assert h + Parts(p, n) == h + Parts(p, n - 1) + [Ts(TsPart(p, n - 1))];
    }
  }

  // A packet stored in the ring or dropped counts the same.
  lemma StoreTracks(s: Stats, h: History, p: Packet, dropped: bool)
    requires TracksCounters(s, h) && CountsTs(s, h)
    ensures var s', h' := StoreStats(s, p, dropped), h + Parts(p, 7);
            && TracksCounters(s', h') && CountsTs(s', h') && Count(Network, h') == Count(Network, h)
  {
    hide TsPartsStats, IsLastCounter, Count;
    PartsTrack(s.(packets := Wrap32(s.packets + 1)), h, p, 7);
  }
}
