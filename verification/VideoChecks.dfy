// The RTP check and the flush, access by access, and what the error counters are worth when the one
// falls into the other.
module VideoChecks {
  import opened Bytes
  import opened VideoModel
  import opened VideoStats
  import opened VideoRuns

  // ---------------------------------------------------------------- the history of a run

  // `history` is what was taken account of since the latest flush began: a header when its number is
  // written, a packet when it is stored. `excess` is what the check that was going on when that flush
  // ended still adds to the network errors.
  datatype Trace = Trace(history: History, excess: nat)

  // A check that saw a gap and has yet to store the error counter.
  predicate Racing(c: Check) {
    c.Missed? || c.Loaded? || (c.Began? && !Follows(c.previous, c.sequence))
  }

  // What it is going to make of a counter that is zeroed meanwhile: one if it has yet to load the
  // counter, one more than the old count if it has loaded that.
  function Excess(c: Check): nat {
    if !Racing(c) then 0 else if c.Loaded? then c.count + 1 else 1
  }

  ghost function Observe(s: State, t: Trace, step: Step): Trace
    requires Ok(s)
  {
    if !Enabled(s, step) then t
    else
      match step
      case CheckOn => if s.check.Began? then t.(history := t.history + [Header(s.check.sequence)]) else t
      case Store(p) => t.(history := t.history + Parts(p, 7))
      case Flush => t.(history := [])
      case FlushOn => if s.flush.value == PID_COUNT then t.(excess := Excess(s.check)) else t
      case _ => t
  }

  ghost function Observed(s: State, t: Trace, steps: seq<Step>): Trace
    requires Ok(s)
    decreases steps
  {
    if steps == [] then t else Observed(Next(s, steps[0]), Observe(s, t, steps[0]), steps[1..])
  }

  const NOTHING := Trace([], 0)

  // ---------------------------------------------------------------- the invariant

  // No check is forgetting counters, or about to.
  predicate Settled(c: Check) {
    c.NoCheck? || c.Began? || c.Checked?
  }

  // At most one header and no packet.
  predicate Opening(h: History) {
    h == [] || (|h| == 1 && h[0].Header?)
  }

  ghost predicate ForgottenTo(s: Stats, n: nat)
    requires n <= PID_COUNT
  {
    forall i | 0 <= i < n :: s.counters[i] == NO_COUNTER
  }

  ghost predicate Remembers(s: State, h: History)
    requires Ok(s)
  {
    && IsLastRtp(h, s.stats.rtp)
    && (if s.flush.None? && Settled(s.check) then TracksCounters(s.stats, h) else AllRestarted(h))
    && (s.check.Forgetting? ==> ForgottenTo(s.stats, s.check.next))
    && (s.flush.Some? ==> ForgottenTo(s.stats, s.flush.value))
  }

  // The network counter as the check in progress is going to leave it.
  ghost predicate CountsGaps(s: State, t: Trace) {
    var due := t.excess + Count(Network, t.history);
    match s.check
    case Began(_, previous) =>
      || (IsLastRtp(t.history, previous) && s.stats.networkErrors == Wrap32(due))
      || (t.history == [] && s.stats.networkErrors == 0 && t.excess == Excess(s.check))
    case Missed => Wrap32(s.stats.networkErrors + 1) == Wrap32(due)
    case Loaded(count) => Wrap32(count + 1) == Wrap32(due)
    case _ => s.stats.networkErrors == Wrap32(due)
  }

  ghost predicate Inv(s: State, t: Trace)
    requires Ok(s)
  {
    && Remembers(s, t.history)
    && (s.flush.None? ==> CountsTs(s.stats, t.history) && CountsGaps(s, t))
    && (s.flush.Some? ==> Opening(t.history))
    && (s.flush.Some? && (s.check.NoCheck? || s.check.Began?) ==> t.history == [])
  }

  // ---------------------------------------------------------------- one step

  lemma OpeningIsBlank(h: History)
    requires Opening(h)
    ensures AllRestarted(h)
    ensures Count(Network, h) == Count(Sequence, h) == Count(Transport, h) == 0
  {
    if h != [] {
      var sequence := h[0].sequence;
      assert h == [] + [Header(sequence)];
      HeaderCounts([], sequence);
    }
  }

  lemma AllForgotten(s: Stats, h: History)
    requires AllRestarted(h) && ForgottenTo(s, PID_COUNT)
    ensures TracksCounters(s, h)
  {
    hide IsLastCounter;
  }

  lemma SameCounters(s: Stats, s': Stats, h: History)
    requires TracksCounters(s, h) && s'.counters == s.counters
    ensures TracksCounters(s', h)
  {
  }

  lemma FirstIsNoError(sequence: uint16)
    ensures !NetworkError([], Header(sequence))
  {
  }

  // The check writes the new number: from here on the header is part of the history.
  lemma BeganKeeps(s: State, t: Trace)
    requires Ok(s) && Inv(s, t) && s.check.Began?
    ensures Inv(Next(s, CheckOn), Observe(s, t, CheckOn))
  {
    hide IsLastRtp, AllRestarted, TracksCounters, Count, Wrap32, NetworkError;
    var h, sequence, previous := t.history, s.check.sequence, s.check.previous;
    var h' := h + [Header(sequence)];
    HeaderIsLast(h, sequence);
    if s.flush.Some? {
      assert Opening(h');
      OpeningIsBlank(h');
    } else {
      HeaderCounts(h, sequence);
      var written := s.stats.(rtp := Some(sequence));
      SameCounters(s.stats, written, h);
      HeaderRestarts(written, h, sequence);
      if IsLastRtp(h, previous) && s.stats.networkErrors == Wrap32(t.excess + Count(Network, h)) {
        RtpTest(h, previous, sequence);
        WrapNext(t.excess + Count(Network, h));
      } else {
        assert Opening(h');
        OpeningIsBlank(h');
        FirstIsNoError(sequence);
        Wrapped(0);
      }
    }
  }

  lemma CountKeeps(s: State, t: Trace)
    requires Ok(s) && Inv(s, t) && (s.check.Missed? || s.check.Loaded?)
    ensures Inv(Next(s, CheckOn), Observe(s, t, CheckOn))
  {
    hide IsLastRtp, AllRestarted, TracksCounters, Count, Wrap32;
  }

  lemma ForgettingKeeps(s: State, t: Trace)
    requires Ok(s) && Inv(s, t) && s.check.Forgetting?
    ensures Inv(Next(s, CheckOn), Observe(s, t, CheckOn))
  {
    hide IsLastRtp, AllRestarted, TracksCounters, Count, Wrap32;
    var next := Next(s, CheckOn);
    if next.check.Checked? {
      AllForgotten(next.stats, t.history);
    }
  }

  lemma StoreKeeps(s: State, t: Trace, p: Packet)
    requires Ok(s) && Inv(s, t) && Enabled(s, Store(p))
    ensures Inv(Next(s, Store(p)), Observe(s, t, Store(p)))
  {
    hide IsLastRtp, AllRestarted, TracksCounters, Count, Wrap32, TsPartsStats, CountsTs;
    StoreTracks(s.stats, t.history, p, Drops(s.ring));
    PartsKeepRtp(t.history, p, 7, s.stats.rtp);
    PartsKeepRest(s.stats.(packets := Wrap32(s.stats.packets + 1)), p, 7);
  }

  lemma FlushKeeps(s: State, t: Trace)
    requires Ok(s) && Inv(s, t) && s.flush.None?
    ensures Inv(Next(s, Flush), Observe(s, t, Flush))
  {
    hide Count, TracksCounters, AllRestarted;
    OpeningIsBlank([]);
  }

  // The flush zeroes the counters: a check in progress may have more to add than this history holds.
  lemma FlushOnKeeps(s: State, t: Trace)
    requires Ok(s) && Inv(s, t) && s.flush.Some?
    ensures Inv(Next(s, FlushOn), Observe(s, t, FlushOn))
  {
    hide IsLastRtp, AllRestarted, TracksCounters, Count, Wrap32;
    var next := Next(s, FlushOn);
    OpeningIsBlank(t.history);
    Wrapped(0);
    if next.flush.None? && Settled(s.check) {
      AllForgotten(next.stats, t.history);
    }
  }

  lemma StepKeeps(s: State, t: Trace, step: Step)
    requires Ok(s) && Inv(s, t)
    ensures Inv(Next(s, step), Observe(s, t, step))
  {
    hide Remembers, CountsGaps, CountsTs, Opening, Next, Observe;
    if Enabled(s, step) {
      match step
      case Rtp(_) => RtpKeeps(s, t, step.sequence);
      case CheckOn =>
        if s.check.Began? {
          BeganKeeps(s, t);
        } else if s.check.Forgetting? {
          ForgettingKeeps(s, t);
        } else {
          CountKeeps(s, t);
        }
      case Store(p) => StoreKeeps(s, t, p);
      case Recv(_) => RecvKeeps(s, t, step.max);
      case Flush => FlushKeeps(s, t);
      case FlushOn => FlushOnKeeps(s, t);
    } else {
      NothingHappens(s, t, step);
    }
  }

  lemma NothingHappens(s: State, t: Trace, step: Step)
    requires Ok(s) && !Enabled(s, step)
    ensures Next(s, step) == s && Observe(s, t, step) == t
  {
  }

  lemma RtpKeeps(s: State, t: Trace, sequence: uint16)
    requires Ok(s) && Inv(s, t) && s.check.NoCheck?
    ensures Inv(Next(s, Rtp(sequence)), Observe(s, t, Rtp(sequence)))
  {
    hide IsLastRtp, AllRestarted, TracksCounters, Count, Wrap32;
  }

  lemma RecvKeeps(s: State, t: Trace, max: nat)
    requires Ok(s) && Inv(s, t) && s.flush.None?
    ensures Inv(Next(s, Recv(max)), Observe(s, t, Recv(max)))
  {
    hide IsLastRtp, AllRestarted, TracksCounters, Count, Wrap32, RecvRing;
  }

  // ---------------------------------------------------------------- runs

  lemma {:induction false} RunKeeps(s: State, t: Trace, steps: seq<Step>)
    requires Ok(s) && Inv(s, t)
    ensures Inv(Run(s, steps), Observed(s, t, steps))
    decreases steps
  {
    hide Inv, Ok, Next, Observe;
    if steps != [] {
      StepKeeps(s, t, steps[0]);
      RunKeeps(Next(s, steps[0]), Observe(s, t, steps[0]), steps[1..]);
    }
  }

  lemma CreatedHolds(requested: nat)
    requires requested >= PACKET_SIZE
    ensures Inv(Created(requested), NOTHING)
  {
    OpeningIsBlank([]);
    AllForgotten(FlushedStats(), []);
  }

  lemma EveryRun(requested: nat, steps: seq<Step>)
    requires requested >= PACKET_SIZE
    ensures Inv(Run(Created(requested), steps), Observed(Created(requested), NOTHING, steps))
  {
    hide Inv;
    CreatedHolds(requested);
    RunKeeps(Created(requested), NOTHING, steps);
  }

  // In every run the sequence and transport error counters are the reference counts of everything
  // since the latest flush began, also in the middle of a check; only a flush in progress has yet to
  // zero them. Dropped packets count like the others.
  lemma TsCountersAreReferenceCounts(requested: nat, steps: seq<Step>)
    requires requested >= PACKET_SIZE && Run(Created(requested), steps).flush.None?
    ensures var e, h := Run(Created(requested), steps), Observed(Created(requested), NOTHING, steps).history;
            && e.stats.sequenceErrors == Wrap32(Count(Sequence, h))
            && e.stats.transportErrors == Wrap32(Count(Transport, h))
  {
    hide Run, Observed, Count;
    EveryRun(requested, steps);
  }

  // Between checks the network error counter is the reference count and what was in excess at the end
  // of the latest flush.
  lemma NetworkCounter(requested: nat, steps: seq<Step>)
    requires requested >= PACKET_SIZE
    requires var e := Run(Created(requested), steps); e.flush.None? && !Checking(e.check)
    ensures var t := Observed(Created(requested), NOTHING, steps);
            Run(Created(requested), steps).stats.networkErrors == Wrap32(t.excess + Count(Network, t.history))
  {
    hide Run, Observed, Count;
    EveryRun(requested, steps);
  }

  lemma {:induction false} ObservedAppend(s: State, t: Trace, a: seq<Step>, b: seq<Step>)
    requires Ok(s)
    ensures Observed(s, t, a + b) == Observed(Run(s, a), Observed(s, t, a), b)
    decreases a
  {
    hide Ok, Next, Observe;
    if a == [] {
      assert a + b == b;
    } else {
      assert (a + b)[1..] == a[1..] + b;
      ObservedAppend(Next(s, a[0]), Observe(s, t, a[0]), a[1..], b);
    }
  }

  lemma {:induction false} ExcessStays(s: State, t: Trace, steps: seq<Step>)
    requires Ok(s) && s.flush.None? && FlushFree(steps)
    ensures Run(s, steps).flush.None? && Observed(s, t, steps).excess == t.excess
    decreases steps
  {
    if steps != [] {
      ExcessStays(Next(s, steps[0]), Observe(s, t, steps[0]), steps[1..]);
    }
  }

  lemma ExcessMeaning(c: Check)
    ensures Excess(c) % 0x1_0000_0000 == 0 <==> !Racing(c) || c == Loaded(0xFFFF_FFFF)
  {
  }

  lemma WrapExcess(excess: nat, count: nat)
    ensures Wrap32(excess + count) == Wrap32(count) <==> excess % 0x1_0000_0000 == 0
  {
  }

  // The network error counter between checks, however many flushes and checks came before: it is the
  // reference count since the latest flush began iff no check that saw a gap had yet to store the
  // counter when that flush ended. (Or the check had loaded the largest count there is, and the store
  // wraps it to zero.)
  lemma NetworkCounterIsRightIff(requested: nat, before: seq<Step>, after: seq<Step>)
    requires requested >= PACKET_SIZE && FlushFree(after)
    requires Run(Created(requested), before).flush == Some(PID_COUNT)
    requires !Checking(Run(Created(requested), before + [FlushOn] + after).check)
    ensures var steps, c := before + [FlushOn] + after, Run(Created(requested), before).check;
            var h := Observed(Created(requested), NOTHING, steps).history;
            (Run(Created(requested), steps).stats.networkErrors == Wrap32(Count(Network, h)))
              == (!Racing(c) || c == Loaded(0xFFFF_FFFF))
  {
    hide Count, Run, Observed, Excess, Racing, Wrap32;
    var s, steps := Created(requested), before + [FlushOn] + after;
    var f, t := Run(s, before), Observed(s, NOTHING, before);
    var g, u := Run(s, before + [FlushOn]), Observed(s, NOTHING, before + [FlushOn]);
    FlushEnds(s, before);
    RunAppend(s, before + [FlushOn], after);
    ObservedAppend(s, NOTHING, before + [FlushOn], after);
    ExcessStays(g, u, after);
    NetworkCounter(requested, steps);
    ExcessMeaning(f.check);
    WrapExcess(Excess(f.check), Count(Network, Observed(s, NOTHING, steps).history));
  }

  lemma FlushEnds(s: State, before: seq<Step>)
    requires Ok(s) && Run(s, before).flush == Some(PID_COUNT)
    ensures Run(s, before + [FlushOn]).flush.None?
    ensures Observed(s, NOTHING, before + [FlushOn]).excess == Excess(Run(s, before).check)
  {
    hide Excess;
    RunAppend(s, before, [FlushOn]);
    ObservedAppend(s, NOTHING, before, [FlushOn]);
    var f, t := Run(s, before), Observed(s, NOTHING, before);
    assert Run(f, [FlushOn]) == Run(Next(f, FlushOn), []);
    assert Observed(f, t, [FlushOn]) == Observed(Next(f, FlushOn), Observe(f, t, FlushOn), []);
  }

  // Such a check had read the remembered number before the flush began.
  lemma RaceBeganBefore(s: State, during: seq<Step>)
    requires Ok(s) && s.flush.None? && FlushFree(during)
    requires var f := Run(s, [Flush] + during); f.flush.Some? && Racing(f.check)
    ensures Racing(s.check)
  {
    assert ([Flush] + during)[1..] == during;
    assert Run(s, [Flush] + during) == Run(Next(s, Flush), during);
    if !Racing(s.check) {
      NoRaceDuringFlush(Next(s, Flush), during);
    }
  }

  lemma {:induction false} NoRaceDuringFlush(s: State, during: seq<Step>)
    requires Ok(s) && s.flush.Some? && FlushFree(during)
    requires !Racing(s.check) && (s.check.NoCheck? ==> s.stats.rtp == None)
    ensures var f := Run(s, during); f.flush.Some? ==> !Racing(f.check)
    decreases during
  {
    if during != [] {
      var next := Next(s, during[0]);
      if next.flush.Some? {
        NoRaceDuringFlush(next, during[1..]);
      } else {
        StaysUnflushed(next, during[1..]);
      }
    }
  }

  lemma {:induction false} StaysUnflushed(s: State, steps: seq<Step>)
    requires Ok(s) && s.flush.None? && FlushFree(steps)
    ensures Run(s, steps).flush.None?
    decreases steps
  {
    if steps != [] {
      StaysUnflushed(Next(s, steps[0]), steps[1..]);
    }
  }

  // ---------------------------------------------------------------- the consumer inside a check

  // A recv anywhere inside a check is as good as one behind it.
  lemma {:induction false} RecvInsideCheck(s: State, max: nat, steps: seq<Step>)
    requires Ok(s) && s.flush.None? && forall i | 0 <= i < |steps| :: steps[i].Rtp? || steps[i].CheckOn?
    ensures Run(s, [Recv(max)] + steps) == Run(s, steps + [Recv(max)])
    ensures Run(s, [Recv(max)] + steps).stats == Run(s, steps).stats
    decreases steps
  {
    var first := [Recv(max)];
    assert (first + steps)[1..] == steps;
    assert Run(s, first + steps) == Run(Next(s, Recv(max)), steps);
    if steps == [] {
      assert first + steps == steps + first;
    } else {
      hide CheckStep, RecvRing, RingOk;
      var next, rest := Next(s, steps[0]), steps[1..];
      assert Next(Next(s, Recv(max)), steps[0]) == Next(next, Recv(max)) by {
        RecvCommutes(s, max, steps[0]);
      }
      RecvInsideCheck(next, max, rest);
      assert (first + rest)[1..] == rest;
      assert Run(next, first + rest) == Run(Next(next, Recv(max)), rest);
      assert (steps + first)[0] == steps[0] && (steps + first)[1..] == rest + first;
    }
  }

  lemma RecvCommutes(s: State, max: nat, step: Step)
    requires Ok(s) && s.flush.None? && (step.Rtp? || step.CheckOn?)
    ensures Next(Next(s, Recv(max)), step) == Next(Next(s, step), Recv(max))
    ensures Next(s, step).flush.None? && Next(Next(s, step), Recv(max)).stats == Next(s, step).stats
  {
    hide RecvRing, RingOk;
  }

  // ---------------------------------------------------------------- undisturbed

  function Repeat(step: Step, n: nat): (r: seq<Step>)
    ensures |r| == n && forall i | 0 <= i < n :: r[i] == step
  {
    seq(n, i => step)
  }

  // The number read and written, the counter loaded and stored, every PID forgotten: more accesses
  // than this no check makes.
  const CHECK_ACCESSES: nat := 3 + PID_COUNT

  function CheckSteps(sequence: uint16): seq<Step> {
    [Rtp(sequence)] + Repeat(CheckOn, CHECK_ACCESSES)
  }

  function FlushSteps(): seq<Step> {
    [Flush] + Repeat(FlushOn, PID_COUNT + 1)
  }

  function ForgottenFrom(t: CounterTable, i: nat): CounterTable
    requires i <= PID_COUNT
  {
    t[..i] + seq(PID_COUNT - i, j => NO_COUNTER)
  }

  lemma RunRepeat(s: State, step: Step, n: nat)
    requires Ok(s) && n > 0
    ensures Run(s, Repeat(step, n)) == Run(Next(s, step), Repeat(step, n - 1))
  {
    assert Repeat(step, n)[1..] == Repeat(step, n - 1);
  }

  lemma RunNothing(s: State)
    requires Ok(s)
    ensures Run(s, []) == s
  {
  }

  lemma RunOne(s: State, step: Step)
    requires Ok(s)
    ensures Run(s, [step]) == Next(s, step)
  {
    RunNothing(Next(s, step));
  }

  lemma CheckFirst(s: State, sequence: uint16)
    requires Ok(s)
    ensures Run(s, CheckSteps(sequence)) == Run(Next(s, Rtp(sequence)), Repeat(CheckOn, CHECK_ACCESSES))
  {
    assert CheckSteps(sequence)[1..] == Repeat(CheckOn, CHECK_ACCESSES);
  }

  lemma FlushFirst(s: State)
    requires Ok(s)
    ensures Run(s, FlushSteps()) == Run(Next(s, Flush), Repeat(FlushOn, PID_COUNT + 1))
  {
    assert FlushSteps()[1..] == Repeat(FlushOn, PID_COUNT + 1);
  }

  lemma {:induction false} CheckIsOver(s: State, n: nat)
    requires Ok(s) && !Checking(s.check)
    ensures Run(s, Repeat(CheckOn, n)) == s
  {
    if n > 0 {
      RunRepeat(s, CheckOn, n);
      CheckIsOver(s, n - 1);
    }
  }

  lemma {:induction false} ForgetsRest(s: State, n: nat)
    requires Ok(s) && s.check.Forgetting? && n >= PID_COUNT - s.check.next
    ensures Run(s, Repeat(CheckOn, n))
         == s.(stats := s.stats.(counters := ForgottenFrom(s.stats.counters, s.check.next)), check := Checked)
    decreases n
  {
    hide RingOk, Run;
    var i, next := s.check.next, Next(s, CheckOn);
    RunRepeat(s, CheckOn, n);
    assert ForgottenFrom(s.stats.counters[i := NO_COUNTER], i + 1) == ForgottenFrom(s.stats.counters, i);
    if i + 1 == PID_COUNT {
      assert ForgottenFrom(next.stats.counters, PID_COUNT) == next.stats.counters;
      CheckIsOver(next, n - 1);
    } else {
      ForgetsRest(next, n - 1);
    }
  }

  // The rest of a check that has loaded the counter.
  lemma StoresAndForgets(s: State, n: nat)
    requires Ok(s) && s.check.Loaded? && n > PID_COUNT
    ensures var stats := s.stats.(networkErrors := Wrap32(s.check.count + 1), counters := NoCounters());
            Run(s, Repeat(CheckOn, n)) == s.(stats := stats, check := Checked)
  {
    hide RingOk, Run, Wrap32;
    RunRepeat(s, CheckOn, n);
    var next := Next(s, CheckOn);
    ForgetsRest(next, n - 1);
    assert ForgottenFrom(next.stats.counters, 0) == NoCounters();
  }

  // Nothing in between: the accesses of a check amount to the check as a whole.
  lemma CheckAlone(s: State, sequence: uint16)
    requires Ok(s) && s.check.NoCheck?
    ensures Run(s, CheckSteps(sequence)) == s.(stats := RtpStats(s.stats, sequence), check := Checked)
  {
    hide RingOk, Wrap32;
    CheckFirst(s, sequence);
    hide Run;
    FinishesBegun(Next(s, Rtp(sequence)));
  }

  // The rest of a check that has read the remembered number.
  lemma FinishesBegun(s: State)
    requires Ok(s) && s.check.Began?
    ensures var sequence, stats := s.check.sequence, s.stats.(rtp := Some(s.check.sequence));
            Run(s, Repeat(CheckOn, CHECK_ACCESSES))
              == s.(stats := if Follows(s.check.previous, sequence) then stats
                             else stats.(networkErrors := Wrap32(stats.networkErrors + 1), counters := NoCounters()),
                    check := Checked)
  {
    hide RingOk, Wrap32, Run;
    RunRepeat(s, CheckOn, CHECK_ACCESSES);
    var s1 := Next(s, CheckOn);
    if s1.check.Checked? {
      CheckIsOver(s1, CHECK_ACCESSES - 1);
    } else {
      RunRepeat(s1, CheckOn, CHECK_ACCESSES - 1);
      StoresAndForgets(Next(s1, CheckOn), CHECK_ACCESSES - 2);
    }
  }

  lemma {:induction false} FlushesRest(s: State, n: nat)
    requires Ok(s) && s.flush.Some? && n == PID_COUNT + 1 - s.flush.value
    ensures var counters := ForgottenFrom(s.stats.counters, s.flush.value);
            Run(s, Repeat(FlushOn, n)) == s.(stats := Stats(s.stats.rtp, counters, 0, 0, 0, 0, 0), flush := None)
    decreases n
  {
    hide RingOk;
    var i, next := s.flush.value, Next(s, FlushOn);
    RunRepeat(s, FlushOn, n);
    if i == PID_COUNT {
      assert Run(next, Repeat(FlushOn, 0)) == next;
      assert ForgottenFrom(s.stats.counters, i) == s.stats.counters;
    } else {
      hide Run;
      assert ForgottenFrom(s.stats.counters[i := NO_COUNTER], i + 1) == ForgottenFrom(s.stats.counters, i);
      FlushesRest(next, n - 1);
    }
  }

  // A whole flush with nothing in between, at whatever point of a check.
  lemma FlushAlone(s: State)
    requires Ok(s) && s.flush.None?
    ensures Run(s, FlushSteps()) == s.(ring := FlushRing(s.ring), stats := FlushedStats())
  {
    hide RingOk;
    FlushFirst(s);
    var next := Next(s, Flush);
    FlushesRest(next, PID_COUNT + 1);
    assert ForgottenFrom(next.stats.counters, 0) == NoCounters();
  }

  // ---------------------------------------------------------------- the race

  // A whole flush between the load and the store of the error counter: the old count comes back, one
  // higher, although nothing has arrived since the flush.
  lemma OldCountComesBack(s: State)
    requires Ok(s) && s.flush.None? && s.check.Loaded?
    ensures var e := Run(s, FlushSteps() + Repeat(CheckOn, CHECK_ACCESSES));
            e.stats == FlushedStats().(networkErrors := Wrap32(s.check.count + 1)) && e.check.Checked?
  {
    hide Ok, Run, Wrap32, FlushSteps;
    RunAppend(s, FlushSteps(), Repeat(CheckOn, CHECK_ACCESSES));
    FlushAlone(s);
    StoresAndForgets(Run(s, FlushSteps()), CHECK_ACCESSES);
  }

  // A whole flush between the reading of the remembered number and the writing of the new one: the
  // header becomes the first since the flush, and counts as an error all the same.
  lemma FirstHeaderCounts(s: State)
    requires Ok(s) && s.flush.None? && s.check.Began? && !Follows(s.check.previous, s.check.sequence)
    ensures var e := Run(s, FlushSteps() + Repeat(CheckOn, CHECK_ACCESSES));
            e.stats == FlushedStats().(rtp := Some(s.check.sequence), networkErrors := 1)
            && e.check.Checked? && e.flush.None?
  {
    hide Ok, Run, FlushSteps;
    RunAppend(s, FlushSteps(), Repeat(CheckOn, CHECK_ACCESSES));
    FlushAlone(s);
    FinishesBegun(Run(s, FlushSteps()));
  }

  lemma RaceBegins(s: State, p: Packet)
    requires Ok(s) && s.check.NoCheck? && s.flush.None? && s.stats.rtp == None
    ensures var r := Run(s, [Rtp(5), CheckOn, Store(p), Rtp(10)]);
            r.check == Began(10, Some(5)) && r.flush.None?
  {
    hide RingOk, TsPartsStats;
    PartsKeepRest(s.stats.(rtp := Some(5), packets := Wrap32(s.stats.packets + 1)), p, 7);
    var steps := [Rtp(5), CheckOn, Store(p), Rtp(10)];
    var s1 := Next(s, Rtp(5));
    var s2 := Next(s1, CheckOn);
    var s3 := Next(s2, Store(p));
    assert steps[1..] == [CheckOn, Store(p), Rtp(10)] && steps[1..][1..] == [Store(p), Rtp(10)];
    assert [Store(p), Rtp(10)][1..] == [Rtp(10)];
    assert Run(s, steps) == Run(s1, [CheckOn, Store(p), Rtp(10)]) == Run(s2, [Store(p), Rtp(10)]);
    assert Run(s2, [Store(p), Rtp(10)]) == Run(s3, [Rtp(10)]);
    assert Run(s3, [Rtp(10)]) == Run(Next(s3, Rtp(10)), []);
  }

  lemma {:induction false} HistoryStays(s: State, t: Trace, step: Step, n: nat)
    requires Ok(s) && (step.FlushOn? || (step.CheckOn? && !s.check.Began?))
    ensures Observed(s, t, Repeat(step, n)).history == t.history
    decreases n
  {
    if n > 0 {
      assert Repeat(step, n)[1..] == Repeat(step, n - 1);
      HistoryStays(Next(s, step), Observe(s, t, step), step, n - 1);
    }
  }

  lemma HistoryOfRace(r: State, t: Trace)
    requires Ok(r) && r.flush.None? && r.check.Began?
    ensures Observed(r, t, FlushSteps() + Repeat(CheckOn, CHECK_ACCESSES)).history == [Header(r.check.sequence)]
  {
    hide RingOk;
    ObservedAppend(r, t, FlushSteps(), Repeat(CheckOn, CHECK_ACCESSES));
    FlushAlone(r);
    assert FlushSteps()[1..] == Repeat(FlushOn, PID_COUNT + 1);
    HistoryStays(Next(r, Flush), Observe(r, t, Flush), FlushOn, PID_COUNT + 1);
    hide FlushSteps, Run;
    var g, u := Run(r, FlushSteps()), Observed(r, t, FlushSteps());
    assert Repeat(CheckOn, CHECK_ACCESSES)[1..] == Repeat(CheckOn, CHECK_ACCESSES - 1);
    HistoryStays(Next(g, CheckOn), Observe(g, u, CheckOn), CheckOn, CHECK_ACCESSES - 1);
  }

  // It happens: the numbers 5 and 10 with a packet in between, and a flush just after 10 was compared
  // with 5. One error is counted where there is none.
  lemma RaceHappens(requested: nat, p: Packet)
    requires requested >= PACKET_SIZE
    ensures var steps := [Rtp(5), CheckOn, Store(p), Rtp(10)] + (FlushSteps() + Repeat(CheckOn, CHECK_ACCESSES));
            var e, h := Run(Created(requested), steps), Observed(Created(requested), NOTHING, steps).history;
            && e.flush.None? && !Checking(e.check)
            && e.stats.networkErrors == 1 && h == [Header(10)] && Count(Network, h) == 0
  {
    hide Ok, RingOk, TsPartsStats, FlushSteps, Count;
    var s, start := Created(requested), [Rtp(5), CheckOn, Store(p), Rtp(10)];
    var rest := FlushSteps() + Repeat(CheckOn, CHECK_ACCESSES);
    RunAppend(s, start, rest);
    ObservedAppend(s, NOTHING, start, rest);
    RaceBegins(s, p);
    var r := Run(s, start);
    FirstHeaderCounts(r);
    FlushAlone(r);
    HistoryOfRace(r, Observed(s, NOTHING, start));
    OpeningIsBlank([Header(10)]);
  }
}
