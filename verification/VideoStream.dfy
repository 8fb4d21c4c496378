// From datagrams to bytes: what the receive thread makes of what it is sent.
module VideoStream {
  import opened Bytes
  import opened Frame
  import opened VideoModel
  import opened VideoStats
  import opened VideoRuns
  import opened VideoChecks

  const RTP_HEADER_SIZE: nat := 12

  // ---------------------------------------------------------------- the thread's steps

  // The steps a datagram gives rise to.
  function StepsOf(datagram: seq<byte>): seq<Step> {
    if |datagram| == RTP_HEADER_SIZE + PACKET_SIZE then
      CheckSteps(U16(datagram[2], datagram[3])) + [Store(datagram[RTP_HEADER_SIZE..])]
    else if |datagram| == PACKET_SIZE then [Store(datagram)]
    else []
  }

  function Cut(datagram: seq<byte>): (d: seq<byte>)
    ensures |d| <= RTP_HEADER_SIZE + PACKET_SIZE
  {
    if |datagram| <= RTP_HEADER_SIZE + PACKET_SIZE then datagram else datagram[..RTP_HEADER_SIZE + PACKET_SIZE]
  }

  function StepsOfAll(datagrams: seq<seq<byte>>): seq<Step> {
    if datagrams == [] then []
    else StepsOfAll(datagrams[..|datagrams| - 1]) + StepsOf(Cut(datagrams[|datagrams| - 1]))
  }

  // ---------------------------------------------------------------- what they amount to

  // The datagrams that carry stream data: seven transport stream packets, alone or behind twelve bytes
  // of RTP header. Of longer ones only the first 1328 bytes are received.
  predicate Carries(d: seq<byte>) {
    |d| == 1316 || |d| >= 1328
  }

  function Data(d: seq<byte>): (p: Packet)
    requires Carries(d)
  {
    if |d| == 1316 then d else d[12..1328]
  }

  // The data as transport stream packets.
  function Sevenths(p: Packet): (h: History)
    ensures |h| == 7 && forall i | 0 <= i < 7 :: h[i] == Ts(p[188 * i..188 * i + 188])
  {
    seq(7, i requires 0 <= i < 7 => Ts(p[188 * i..188 * i + 188]))
  }

  // What a datagram adds to the history: the number in bytes 2 and 3 of a header, high byte first, and
  // each 188 bytes of the data.
  function EventsIn(d: seq<byte>): History {
    if !Carries(d) then []
    else
      (if |d| == 1316 then [] else [Header(0x100 * (d[2] as int) + d[3])])
      + Sevenths(Data(d))
  }

  function EventsInAll(ds: seq<seq<byte>>): History {
    if ds == [] then [] else EventsInAll(ds[..|ds| - 1]) + EventsIn(ds[|ds| - 1])
  }

  // The bytes a ring of the given size holds after them: the data of each, as it came, that leaves
  // room for another packet.
  function Filled(held: seq<byte>, size: nat, ds: seq<seq<byte>>): seq<byte> {
    if ds == [] then held
    else
      var before, d := Filled(held, size, ds[..|ds| - 1]), ds[|ds| - 1];
      if Carries(d) && |before| + 1316 < size then before + Data(d) else before
  }

  function Carrying(ds: seq<seq<byte>>): nat {
    if ds == [] then 0 else Carrying(ds[..|ds| - 1]) + if Carries(ds[|ds| - 1]) then 1 else 0
  }

  lemma {:induction false} PartsAre(p: Packet, n: nat)
    requires n <= 7
    ensures |Parts(p, n)| == n && forall i | 0 <= i < n :: Parts(p, n)[i] == Ts(p[188 * i..188 * i + 188])
    decreases n
  {
    if n > 0 {
      PartsAre(p, n - 1);
    }
  }

  // The receiver with nothing going on but the loan.
  ghost predicate Idle(s: State) {
    Ok(s) && s.check.NoCheck? && s.flush.None?
  }

  // Storing one packet.
  lemma OneStored(s: State, t: Trace, p: Packet)
    requires Ok(s) && !Checking(s.check) && s.flush.None?
    ensures var e, u := Run(s, [Store(p)]), Observed(s, t, [Store(p)]);
            && Idle(e) && u == t.(history := t.history + Sevenths(p))
            && e.ring.held == (if |s.ring.held| + 1316 < s.ring.size then s.ring.held + p else s.ring.held)
            && e.stats.packets == Wrap32(s.stats.packets + 1)
  {
    hide RingOk, TsPartsStats, Parts, Wrap32, Sevenths;
    RunOne(s, Store(p));
    assert Observed(s, t, [Store(p)]) == Observed(Next(s, Store(p)), Observe(s, t, Store(p)), []);
    PartsAre(p, 7);
    assert Parts(p, 7) == Sevenths(p);
    PartsKeepRest(s.stats.(packets := Wrap32(s.stats.packets + 1)), p, 7);
    RoomOrFull(s.ring);
  }

  lemma RoomOrFull(r: Ring)
    requires RingOk(r)
    ensures Drops(r) <==> !(|r.held| + 1316 < r.size)
  {
  }

  // The accesses of a check add the header, and touch neither ring nor packet count.
  lemma CheckObserved(s: State, t: Trace, sequence: uint16)
    requires Idle(s)
    ensures var e, u := Run(s, CheckSteps(sequence)), Observed(s, t, CheckSteps(sequence));
            && u == t.(history := t.history + [Header(sequence)])
            && Ok(e) && e.check.Checked? && e.flush.None? && e.ring == s.ring && e.stats.packets == s.stats.packets
  {
    hide RingOk;
    CheckAlone(s, sequence);
    assert CheckSteps(sequence)[1..] == Repeat(CheckOn, CHECK_ACCESSES);
    assert Repeat(CheckOn, CHECK_ACCESSES)[1..] == Repeat(CheckOn, CHECK_ACCESSES - 1);
    var s1 := Next(s, Rtp(sequence));
    TraceStays(Next(s1, CheckOn), Observe(s1, t, CheckOn), CHECK_ACCESSES - 1);
  }

  lemma {:induction false} TraceStays(s: State, t: Trace, n: nat)
    requires Ok(s) && !s.check.Began?
    ensures Observed(s, t, Repeat(CheckOn, n)) == t
    decreases n
  {
    if n > 0 {
      assert Repeat(CheckOn, n)[1..] == Repeat(CheckOn, n - 1);
      TraceStays(Next(s, CheckOn), t, n - 1);
    }
  }

  // What a datagram does to a receiver, and to the history of its run.
  ghost predicate Takes(s: State, t: Trace, e: State, u: Trace, d: seq<byte>) {
    && Idle(e) && u == t.(history := t.history + EventsIn(d))
    && e.ring.held == Filled(s.ring.held, s.ring.size, [d])
    && e.stats.packets == Wrap32(s.stats.packets + if Carries(d) then 1 else 0)
  }

  lemma PlainDatagram(s: State, t: Trace, d: seq<byte>)
    requires Idle(s) && |d| == 1316
    ensures Takes(s, t, Run(s, [Store(d)]), Observed(s, t, [Store(d)]), d)
  {
    hide Run, Observed, Wrap32, Filled, RingOk, Sevenths;
    FilledByOne(s.ring.held, s.ring.size, d);
    OneStored(s, t, d);
    assert EventsIn(d) == Sevenths(d);
  }

  lemma RtpDatagram(s: State, t: Trace, d: seq<byte>)
    requires Idle(s) && |d| >= 1328
    ensures var steps := CheckSteps(U16(d[2], d[3])) + [Store(d[12..1328])];
            Takes(s, t, Run(s, steps), Observed(s, t, steps), d)
  {
    hide Run, Observed, Wrap32, Filled, CheckSteps, RingOk, Sevenths;
    var p: Packet := d[12..1328];
    var sequence := U16(d[2], d[3]);
    FilledByOne(s.ring.held, s.ring.size, d);
    RunAppend(s, CheckSteps(sequence), [Store(p)]);
    ObservedAppend(s, t, CheckSteps(sequence), [Store(p)]);
    CheckObserved(s, t, sequence);
    OneStored(Run(s, CheckSteps(sequence)), Observed(s, t, CheckSteps(sequence)), p);
    assert EventsIn(d) == [Header(sequence)] + Sevenths(p);
    Regroup(t.history, [Header(sequence)], Sevenths(p));
  }

  lemma OneDatagram(s: State, t: Trace, d: seq<byte>)
    requires Idle(s)
    ensures Takes(s, t, Run(s, StepsOf(Cut(d))), Observed(s, t, StepsOf(Cut(d))), d)
  {
    if |d| == 1316 {
      hide Takes, Run, Observed, Idle;
      PlainDatagram(s, t, d);
    } else if |d| >= 1328 {
      hide Takes, Run, Observed, Idle, CheckSteps;
      RtpDatagram(s, t, d);
      assert Cut(d) == d[..1328] && Cut(d)[12..] == d[12..1328] && Cut(d)[2] == d[2] && Cut(d)[3] == d[3];
    } else {
      NothingSent(s, t);
      FilledByOne(s.ring.held, s.ring.size, d);
    }
  }

  lemma FilledByOne(held: seq<byte>, size: nat, d: seq<byte>)
    ensures Filled(held, size, [d]) == if Carries(d) && |held| + 1316 < size then held + Data(d) else held
  {
    assert [d][..0] == [];
  }

  // What any datagrams do to a receiver, and to the history of its run.
  ghost predicate TakesAll(s: State, t: Trace, e: State, u: Trace, ds: seq<seq<byte>>) {
    && Idle(e) && e.ring.size == s.ring.size && u == t.(history := t.history + EventsInAll(ds))
    && e.ring.held == Filled(s.ring.held, s.ring.size, ds)
    && e.stats.packets == Wrap32(s.stats.packets + Carrying(ds))
  }

  lemma TakesOneMore(s: State, t: Trace, m: State, v: Trace, e: State, u: Trace, init: seq<seq<byte>>, d: seq<byte>)
    requires TakesAll(s, t, m, v, init) && Takes(m, v, e, u, d) && e.ring.size == m.ring.size
    ensures TakesAll(s, t, e, u, init + [d])
  {
    OneMore(s.ring.held, s.ring.size, init, d);
    hide Ok, EventsIn, EventsInAll, Carries, Carrying, Filled, Wrap32;
    WrapSum(s.stats.packets + Carrying(init), if Carries(d) then 1 else 0);
    Regroup(t.history, EventsInAll(init), EventsIn(d));
  }

  lemma IsIdle(s: State, t: Trace, e: State, u: Trace, ds: seq<seq<byte>>)
    requires TakesAll(s, t, e, u, ds)
    ensures Idle(e)
  {
  }

  // A run of the receive thread on its own, on any datagrams: the ring ends up with their data as they
  // came, except for those that found it full, every one with data is counted, and the history grows
  // by their headers and transport stream packets in order.
  lemma {:induction false} StreamFills(s: State, t: Trace, ds: seq<seq<byte>>)
    requires Idle(s)
    ensures TakesAll(s, t, Run(s, StepsOfAll(ds)), Observed(s, t, StepsOfAll(ds)), ds)
    decreases |ds|
  {
    hide Run, Observed, StepsOf, StepsOfAll, Takes, TakesAll, Cut, Ok;
    if ds == [] {
      NoneTaken(s, t);
    } else {
      var init, d := ds[..|ds| - 1], ds[|ds| - 1];
      assert ds == init + [d];
      StreamFills(s, t, init);
      StreamGoesOn(s, t, init, d);
    }
  }

  lemma NoneTaken(s: State, t: Trace)
    requires Idle(s)
    ensures TakesAll(s, t, Run(s, StepsOfAll([])), Observed(s, t, StepsOfAll([])), [])
  {
    NothingSent(s, t);
  }

  lemma StreamGoesOn(s: State, t: Trace, init: seq<seq<byte>>, d: seq<byte>)
    requires Idle(s)
    requires TakesAll(s, t, Run(s, StepsOfAll(init)), Observed(s, t, StepsOfAll(init)), init)
    ensures TakesAll(s, t, Run(s, StepsOfAll(init + [d])), Observed(s, t, StepsOfAll(init + [d])), init + [d])
  {
    hide Run, Observed, StepsOf, StepsOfAll, Takes, TakesAll, Cut, Ok;
    var a, b := StepsOfAll(init), StepsOf(Cut(d));
    OneMore(s.ring.held, s.ring.size, init, d);
    RunAppend(s, a, b);
    ObservedAppend(s, t, a, b);
    var m, v := Run(s, a), Observed(s, t, a);
    IsIdle(s, t, m, v, init);
    OneDatagram(m, v, d);
    TakesOneMore(s, t, m, v, Run(m, b), Observed(m, v, b), init, d);
  }

  lemma OneMore(held: seq<byte>, size: nat, init: seq<seq<byte>>, d: seq<byte>)
    ensures var ds := init + [d];
            && StepsOfAll(ds) == StepsOfAll(init) + StepsOf(Cut(d))
            && EventsInAll(ds) == EventsInAll(init) + EventsIn(d)
            && Carrying(ds) == Carrying(init) + (if Carries(d) then 1 else 0)
            && Filled(held, size, ds) == Filled(Filled(held, size, init), size, [d])
  {
    hide StepsOf, Cut, EventsIn, Carries, Data;
    assert (init + [d])[..|init|] == init && [d][..0] == [];
  }

  lemma Regroup(a: History, b: History, c: History)
    ensures (a + b) + c == a + (b + c)
  {
  }

  lemma NothingSent(s: State, t: Trace)
    requires Idle(s)
    ensures Run(s, []) == s && Observed(s, t, []) == t && Wrap32(s.stats.packets) == s.stats.packets
    ensures t.history + [] == t.history
  {
  }
}
