// A channel scan, on values: the list is read from its high end downwards by a position, the number
// of entries not yet passed.
module ScanRuns {
  import opened Bytes
  import opened ChannelOrder

  const OVERLAP: uint32 := 5500000

  // ---------------------------------------------------------------- one step

  // Where the entries of the frequency just below `p` begin.
  function GroupStart(s: seq<Channel>, p: nat): (q: nat)
    requires 0 < p <= |s|
    ensures q < p
  {
    if p == 1 || s[p - 2].frequency != s[p - 1].frequency then p - 1 else GroupStart(s, p - 1)
  }

  // The skip's bound; the subtraction is 32 bits wide.
  function Limit(frequency: uint32): uint32 {
    Wrap32(frequency - OVERLAP)
  }

  function Skip(s: seq<Channel>, p: nat, limit: uint32): (q: nat)
    requires p <= |s|
    ensures q <= p
  {
    if p == 0 || s[p - 1].frequency <= limit then p else Skip(s, p - 1, limit)
  }

  function Names(s: seq<Channel>, q: nat, p: nat): string
    requires q < p <= |s|
    decreases p - q
  {
    if q == p - 1 then s[q].name else Names(s, q + 1, p) + ", " + s[q].name
  }

  // `position` is just past the last entry of a frequency, or at the low end.
  ghost predicate AtGroupEnd(s: seq<Channel>, p: nat) {
    p <= |s| && (0 < p < |s| ==> s[p - 1].frequency < s[p].frequency)
  }

  lemma {:induction false} GroupIsOneFrequency(s: seq<Channel>, p: nat)
    requires Sorted(s) && 0 < p <= |s|
    ensures var q := GroupStart(s, p);
            && AtGroupEnd(s, q)
            && (forall i | q <= i < p :: s[i].frequency == s[p - 1].frequency)
            && (forall i | 0 <= i < q :: s[i].frequency < s[p - 1].frequency)
  {
    if p > 1 && s[p - 2].frequency == s[p - 1].frequency {
      GroupIsOneFrequency(s, p - 1);
    }
  }

  lemma SkipsExactlyAbove(s: seq<Channel>, p: nat, limit: uint32)
    requires Sorted(s) && AtGroupEnd(s, p)
    ensures var q := Skip(s, p, limit);
            && AtGroupEnd(s, q)
            && (forall i | q <= i < p :: s[i].frequency > limit)
            && (forall i | 0 <= i < q :: s[i].frequency <= limit)
  {
    SkipBounds(s, p, limit);
  }

  lemma {:induction false} SkipBounds(s: seq<Channel>, p: nat, limit: uint32)
    requires Sorted(s) && p <= |s|
    ensures var q := Skip(s, p, limit);
            (forall i | q <= i < p :: s[i].frequency > limit) && (forall i | 0 <= i < q :: s[i].frequency <= limit)
  {
    if p > 0 && s[p - 1].frequency > limit {
      SkipBounds(s, p - 1, limit);
    }
  }

  // ---------------------------------------------------------------- runs

  // One call of advance and the calls of detect that follow it; each says whether it got as far as
  // the skip (a lock, and the program list read).
  type Round = seq<bool>

  // The entries from, to-1 merged into one report.
  datatype Report = Report(frequency: uint32, from: nat, to: nat, locked: bool)

  datatype State = State(position: nat, scanned: uint32, reports: seq<Report>)

  function Detect(s: seq<Channel>, p: nat, f: uint32, outcomes: Round): (q: nat)
    requires p <= |s|
    ensures q <= p
    decreases |outcomes|
  {
    if outcomes == [] then p
    else Detect(s, if outcomes[0] then Skip(s, p, Limit(f)) else p, f, outcomes[1..])
  }

  function Step(s: seq<Channel>, st: State, round: Round): (r: State)
    requires st.position <= |s|
    ensures r.position <= st.position
    ensures st.position > 0 ==> r.position < st.position
  {
    var scanned := Wrap32(st.scanned + |round|);
    if st.position == 0 then st.(scanned := scanned)
    else
      var f, q := s[st.position - 1].frequency, GroupStart(s, st.position);
      State(Detect(s, q, f, round), scanned, st.reports + [Report(f, q, st.position, true in round)])
  }

  function Run(s: seq<Channel>, st: State, rounds: seq<Round>): (r: State)
    requires st.position <= |s|
    ensures r.position <= st.position
    decreases |rounds|
  {
    if rounds == [] then st else Run(s, Step(s, st, rounds[0]), rounds[1..])
  }

  function Start(s: seq<Channel>): State {
    State(|s|, 0, [])
  }

  lemma {:induction false} DetectsSkipOnce(s: seq<Channel>, p: nat, f: uint32, outcomes: Round)
    requires Sorted(s) && p <= |s|
    ensures Detect(s, p, f, outcomes) == if true in outcomes then Skip(s, p, Limit(f)) else p
    decreases |outcomes|
  {
    if outcomes != [] {
      var q := if outcomes[0] then Skip(s, p, Limit(f)) else p;
      DetectsSkipOnce(s, q, f, outcomes[1..]);
      assert true in outcomes <==> outcomes[0] || true in outcomes[1..];
      SkipBounds(s, p, Limit(f));
    }
  }

  // A locked report hides the channels less than 5.5 MHz below it. Below 5.5 MHz the bound wraps
  // round and nothing is hidden.
  ghost predicate Hides(r: Report, f: uint32) {
    r.locked && r.frequency >= OVERLAP && r.frequency - OVERLAP < f < r.frequency
  }

  lemma HidesMeaning(r: Report, f: uint32)
    ensures Hides(r, f) <==> r.locked && r.frequency >= 5500000 && f < r.frequency && f > r.frequency - 5500000
  {
  }

  ghost predicate Reported(reports: seq<Report>, i: nat) {
    exists k :: 0 <= k < |reports| && reports[k].from <= i < reports[k].to
  }

  ghost predicate Hidden(reports: seq<Report>, f: uint32) {
    exists k :: 0 <= k < |reports| && Hides(reports[k], f)
  }

  // A report names all the channels of its frequency and no others.
  ghost predicate Whole(s: seq<Channel>, r: Report) {
    r.from < r.to <= |s| && forall i | 0 <= i < |s| :: r.from <= i < r.to <==> s[i].frequency == r.frequency
  }

  ghost predicate Scanned(s: seq<Channel>, st: State) {
    && AtGroupEnd(s, st.position)
    && (forall r | r in st.reports :: Whole(s, r) && st.position <= r.from)
    && (forall j, k | 0 <= j < k < |st.reports| :: st.reports[k].frequency < st.reports[j].frequency)
    && (forall i | st.position <= i < |s| :: Reported(st.reports, i) <==> !Hidden(st.reports, s[i].frequency))
    && (forall i | 0 <= i < st.position :: !Hidden(st.reports, s[i].frequency))
  }

  // What one round does to a channel at or above the new position, and to one below it.
  lemma RoundHides(s: seq<Channel>, st: State, round: Round)
    requires Sorted(s) && AtGroupEnd(s, st.position) && st.position > 0
    ensures var next := Step(s, st, round);
            var r := next.reports[|st.reports|];
            && AtGroupEnd(s, next.position)
            && Whole(s, r) && r.to == st.position && next.position <= r.from
            && (forall i | next.position <= i < r.from :: Hides(r, s[i].frequency))
            && (forall i | 0 <= i < next.position || r.from <= i < |s| :: !Hides(r, s[i].frequency))
  {
    hide Skip, GroupStart, Detect;
    var p := st.position;
    var f, q := s[p - 1].frequency, GroupStart(s, p);
    GroupIsOneFrequency(s, p);
    DetectsSkipOnce(s, q, f, round);
    SkipsExactlyAbove(s, q, Limit(f));
  }

  lemma StepScans(s: seq<Channel>, st: State, round: Round)
    requires Sorted(s) && Scanned(s, st)
    ensures Scanned(s, Step(s, st, round))
  {
    if st.position > 0 {
      RoundHides(s, st, round);
      var next := Step(s, st, round);
      Extended(s, st, next.reports[|st.reports|], next.position);
    }
  }

  // What a further report adds to what is reported and hidden.
  lemma OneMoreReport(was: seq<Report>, r: Report, i: nat, f: uint32)
    ensures Hidden(was + [r], f) <==> Hidden(was, f) || Hides(r, f)
    ensures Reported(was + [r], i) <==> Reported(was, i) || r.from <= i < r.to
  {
    hide Hides;
    var now := was + [r];
    assert now[|was|] == r && forall k | 0 <= k < |was| :: now[k] == was[k];
    if Hidden(was, f) {
      var k :| 0 <= k < |was| && Hides(was[k], f);
      assert Hides(now[k], f);
    }
    if Reported(was, i) {
      var k :| 0 <= k < |was| && was[k].from <= i < was[k].to;
      assert now[k].from <= i < now[k].to;
    }
  }

  lemma WholesAreApart(s: seq<Channel>, lower: Report, upper: Report)
    requires Sorted(s) && Whole(s, lower) && Whole(s, upper) && lower.to <= upper.from
    ensures lower.frequency < upper.frequency
  {
    assert s[lower.from].frequency == lower.frequency && s[upper.from].frequency == upper.frequency;
  }

  lemma ReportedAbove(reports: seq<Report>, low: nat, i: nat)
    requires (forall r | r in reports :: low <= r.from) && i < low
    ensures !Reported(reports, i)
  {
  }

  lemma Extended(s: seq<Channel>, st: State, r: Report, p: nat)
    requires Sorted(s) && Scanned(s, st) && AtGroupEnd(s, p)
    requires Whole(s, r) && r.to == st.position && p <= r.from
    requires forall i | p <= i < r.from :: Hides(r, s[i].frequency)
    requires forall i | 0 <= i < p || r.from <= i < |s| :: !Hides(r, s[i].frequency)
    ensures Scanned(s, State(p, st.scanned, st.reports + [r]))
  {
    var now := st.reports + [r];
    forall k | 0 <= k < |st.reports|
      ensures r.frequency < now[k].frequency
    {
      assert now[k] == st.reports[k] && st.reports[k] in st.reports;
      WholesAreApart(s, r, st.reports[k]);
    }
    hide Whole, Hides, Hidden, Reported;
    forall i | 0 <= i < |s|
      ensures p <= i ==> (Reported(now, i) <==> !Hidden(now, s[i].frequency))
      ensures i < p ==> !Hidden(now, s[i].frequency)
    {
      OneMoreReport(st.reports, r, i, s[i].frequency);
      if i < st.position {
        ReportedAbove(st.reports, st.position, i);
      }
    }
  }

  // In every run: each report is a whole frequency, the reported frequencies fall strictly, the
  // next channel is null or the last of its frequency, and a channel the scan has passed is
  // reported exactly if no locked report hides it.
  lemma {:induction false} RunScans(s: seq<Channel>, st: State, rounds: seq<Round>)
    requires Sorted(s) && Scanned(s, st)
    ensures Scanned(s, Run(s, st, rounds))
    decreases |rounds|
  {
    assert st.position <= |s|;
    hide Scanned, Step;
    if rounds != [] {
      StepScans(s, st, rounds[0]);
      RunScans(s, Step(s, st, rounds[0]), rounds[1..]);
    }
  }

  // A report stands for its round: it is locked iff some detect of the round got to the skip.
  lemma {:induction false} LockedIfReached(s: seq<Channel>, st: State, rounds: seq<Round>)
    requires st.position <= |s|
    ensures var reports, n := Run(s, st, rounds).reports, |st.reports|;
            && n <= |reports| <= n + |rounds| && reports[..n] == st.reports
            && (Run(s, st, rounds).position > 0 ==> |reports| == n + |rounds|)
            && forall k | 0 <= k < |reports| - n :: reports[n + k].locked <==> true in rounds[k]
    decreases |rounds|
  {
    hide GroupStart, Detect;
    if rounds != [] {
      var next, n := Step(s, st, rounds[0]), |st.reports|;
      LockedIfReached(s, next, rounds[1..]);
      var reports := Run(s, next, rounds[1..]).reports;
      if st.position == 0 {
        StaysOver(s, st, rounds);
      } else {
        assert reports[..n] == reports[..n + 1][..n] && reports[n] == reports[..n + 1][n];
        forall k | 0 <= k < |reports| - n
          ensures reports[n + k].locked <==> true in rounds[k]
        {
          if k > 0 {
            assert rounds[k] == rounds[1..][k - 1] && reports[n + k] == reports[n + 1 + (k - 1)];
          }
        }
      }
    }
  }

  lemma {:induction false} StaysOver(s: seq<Channel>, st: State, rounds: seq<Round>)
    requires st.position == 0
    ensures Run(s, st, rounds).reports == st.reports && Run(s, st, rounds).position == 0
    decreases |rounds|
  {
    if rounds != [] {
      StaysOver(s, Step(s, st, rounds[0]), rounds[1..]);
    }
  }

  lemma StartScans(s: seq<Channel>)
    ensures Scanned(s, Start(s))
  {
  }

  // ---------------------------------------------------------------- the rest of the list

  // The distinct frequencies below `p`.
  function Remaining(s: seq<Channel>, p: nat): (n: nat)
    requires p <= |s|
    ensures n == 0 <==> p == 0
  {
    if p == 0 then 0
    else if p == 1 then 1
    else Remaining(s, p - 1) + if s[p - 1].frequency == s[p - 2].frequency then 0 else 1
  }

  lemma {:induction false} RemainingIsMonotone(s: seq<Channel>, q: nat, p: nat)
    requires q <= p <= |s|
    ensures Remaining(s, q) <= Remaining(s, p)
    decreases p
  {
    if q < p {
      RemainingIsMonotone(s, q, p - 1);
    }
  }

  lemma {:induction false} GroupIsOneRemaining(s: seq<Channel>, p: nat)
    requires 0 < p <= |s|
    ensures Remaining(s, GroupStart(s, p)) == Remaining(s, p) - 1
  {
    if p > 1 && s[p - 2].frequency == s[p - 1].frequency {
      GroupIsOneRemaining(s, p - 1);
    }
  }

  lemma {:induction false} FrequenciesAppend(s: seq<Channel>, c: Channel)
    ensures Frequencies(s + [c]) == Frequencies(s) + {c.frequency}
  {
    if s == [] {
      assert s + [c] == [c] && [c][1..] == [];
    } else {
      assert (s + [c])[1..] == s[1..] + [c];
      FrequenciesAppend(s[1..], c);
    }
  }

  lemma {:induction false} FrequenciesBelow(s: seq<Channel>, high: uint32)
    requires forall i | 0 <= i < |s| :: s[i].frequency <= high
    ensures forall f | f in Frequencies(s) :: f <= high
  {
    if s != [] {
      FrequenciesBelow(s[1..], high);
    }
  }

  // On an ordered list the count of changes is the number of distinct frequencies.
  lemma {:induction false} RemainingIsDistinct(s: seq<Channel>, p: nat)
    requires Sorted(s) && p <= |s|
    ensures Remaining(s, p) == |Frequencies(s[..p])|
  {
    if p > 0 {
      RemainingIsDistinct(s, p - 1);
      assert s[..p] == s[..p - 1] + [s[p - 1]];
      FrequenciesAppend(s[..p - 1], s[p - 1]);
      if p > 1 {
        assert s[..p - 1] == s[..p - 2] + [s[p - 2]];
        FrequenciesAppend(s[..p - 2], s[p - 2]);
        FrequenciesBelow(s[..p - 1], s[p - 2].frequency);
      }
    }
  }

  lemma StepRemaining(s: seq<Channel>, st: State, round: Round)
    requires st.position <= |s| && st.position > 0
    ensures Remaining(s, Step(s, st, round).position) < Remaining(s, st.position)
  {
    GroupIsOneRemaining(s, st.position);
    RemainingIsMonotone(s, Step(s, st, round).position, GroupStart(s, st.position));
  }

  // The scan is over after at most as many rounds as there are distinct frequencies, and has then
  // dealt with every channel.
  lemma {:induction false} ScanEnds(s: seq<Channel>, st: State, rounds: seq<Round>)
    requires st.position <= |s| && |rounds| >= Remaining(s, st.position)
    ensures Run(s, st, rounds).position == 0
    decreases |rounds|
  {
    if rounds != [] {
      if st.position > 0 {
        StepRemaining(s, st, rounds[0]);
      }
      ScanEnds(s, Step(s, st, rounds[0]), rounds[1..]);
    }
  }

  lemma WholeScan(s: seq<Channel>, rounds: seq<Round>)
    requires Sorted(s) && |rounds| >= |Frequencies(s)|
    ensures var reports := Run(s, Start(s), rounds).reports;
            && (forall r | r in reports :: Whole(s, r))
            && (forall j, k | 0 <= j < k < |reports| :: reports[k].frequency < reports[j].frequency)
            && (forall i | 0 <= i < |s| :: Reported(reports, i) <==> !Hidden(reports, s[i].frequency))
  {
    hide Run, Hidden, Whole, Frequencies;
    StartScans(s);
    RunScans(s, Start(s), rounds);
    RemainingIsDistinct(s, |s|);
    assert s[..|s|] == s;
    ScanEnds(s, Start(s), rounds);
  }

  // ---------------------------------------------------------------- progress

  // channelscan_get_progress: 32-bit arithmetic, returned in eight bits.
  function Progress(remaining: nat, scanned: uint32): byte
    requires remaining > 0 ==> Wrap32(scanned + remaining) != 0
  {
    if remaining == 0 then 100 else Wrap32(scanned * 100) / Wrap32(scanned + remaining) % 0x100
  }

  // While the sum stays within this, neither it nor the product overflows.
  const MOST: nat := 42949672

  lemma Cancel(a: nat, b: nat, k: nat)
    requires k > 0 && a * k <= b * k
    ensures a <= b
  {
    if a > b {
      Scale(b + 1, a, k);
    }
  }

  lemma QuotientRises(a: nat, b: nat, c: nat, d: nat)
    requires b > 0 && d > 0 && a * d <= c * b
    ensures a / b <= c / d
  {
    var x, y := a / b, c / d;
    QuotientBelow(a, b);
    Scale(x * b, a, d);
    assert x * b * d == x * d * b;
    Cancel(x * d, c, b);
    assert c < (y + 1) * d;
    assert x * d < (y + 1) * d;
    if x > y {
      Scale(y + 1, x, d);
    }
  }

  lemma Scale(a: nat, b: nat, k: nat)
    requires a <= b
    ensures a * k <= b * k
  {
  }

  lemma Below100(a: nat, b: nat)
    requires a < 100 * b
    ensures a / b < 100
  {
    QuotientBelow(a, b);
    assert a / b * b <= 100 * b - 1;
    if a / b >= 100 {
      Scale(100, a / b, b);
    }
  }

  lemma Cross(r: nat, n: nat, r': nat, n': nat)
    requires r' <= r && n <= n'
    ensures 100 * n * (n' + r') <= 100 * n' * (n + r)
  {
    Scale(r', r, n);
    Scale(n, n', r);
    assert n * (n' + r') == n * n' + r' * n;
    assert n' * (n + r) == n * n' + n' * r;
    assert r * n == n * r && n' * r == r * n';
    assert n * (n' + r') <= n' * (n + r);
    assert 100 * n * (n' + r') == 100 * (n * (n' + r'));
    assert 100 * n' * (n + r) == 100 * (n' * (n + r));
  }

  lemma ProgressPlain(r: nat, n: uint32)
    requires 0 < r && n + r <= MOST
    ensures Progress(r, n) == n * 100 / (n + r) < 100
  {
    Below100(n * 100, n + r);
    var share := n * 100 / (n + r);
    assert share % 0x100 == share;
  }

  // The share of what was scanned in per cent, rounded down.
  lemma ProgressIsShare(r: nat, n: uint32)
    requires 0 < r && n + r <= 42949672
    ensures var p := Progress(r, n) as int; p * (n + r) <= 100 * n < (p + 1) * (n + r)
  {
    ProgressPlain(r, n);
    hide Progress;
    Floor(100 * n, n + r);
  }

  lemma Floor(a: nat, b: nat)
    requires b > 0
    ensures a / b * b <= a < (a / b + 1) * b
  {
    assert a == a / b * b + a % b;
    assert (a / b + 1) * b == a / b * b + b;
  }

  lemma ProgressRange(r: nat, n: uint32)
    requires n + r <= MOST
    ensures Progress(r, n) <= 100
    ensures Progress(r, n) < 100 <==> r > 0
  {
    if r > 0 {
      ProgressPlain(r, n);
    }
  }

  // More scanned and less remaining never shows as less progress.
  lemma ProgressRises(r: nat, n: uint32, r': nat, n': uint32)
    requires r' <= r && n <= n' && n + r <= MOST && n' + r' <= MOST
    ensures Progress(r, n) <= Progress(r', n')
  {
    ProgressRange(r, n);
    if r' > 0 {
      ProgressPlain(r, n);
      ProgressPlain(r', n');
      hide Progress;
      Cross(r, n, r', n');
      QuotientRises(n * 100, n + r, n' * 100, n' + r');
    }
  }

  function Detects(rounds: seq<Round>): nat {
    if rounds == [] then 0 else |rounds[0]| + Detects(rounds[1..])
  }

  // Room for `more` calls of detect before a sum or product could overflow.
  ghost predicate Room(s: seq<Channel>, st: State, more: nat) {
    st.position <= |s| && st.scanned + more + Remaining(s, |s|) <= MOST
  }

  function Shown(s: seq<Channel>, st: State): byte
    requires Room(s, st, 0)
  {
    RemainingIsMonotone(s, st.position, |s|);
    Progress(Remaining(s, st.position), st.scanned)
  }

  lemma ShownRange(s: seq<Channel>, st: State)
    requires Room(s, st, 0)
    ensures Shown(s, st) <= 100
    ensures Shown(s, st) < 100 <==> st.position > 0
  {
    RemainingIsMonotone(s, st.position, |s|);
    ProgressRange(Remaining(s, st.position), st.scanned);
  }

  // Further down the list with no fewer channels tried, the progress shown is no lower.
  lemma ShownRises(s: seq<Channel>, a: State, b: State)
    requires Room(s, a, 0) && Room(s, b, 0) && b.position <= a.position && a.scanned <= b.scanned
    ensures Shown(s, a) <= Shown(s, b)
  {
    RemainingIsMonotone(s, a.position, |s|);
    RemainingIsMonotone(s, b.position, |s|);
    RemainingIsMonotone(s, b.position, a.position);
    hide Progress, Remaining;
    ProgressRises(Remaining(s, a.position), a.scanned, Remaining(s, b.position), b.scanned);
  }

  lemma {:induction false} OneMoreDetect(s: seq<Channel>, p: nat, f: uint32, outcomes: Round, last: bool)
    requires p <= |s|
    ensures Detect(s, p, f, outcomes + [last]) <= Detect(s, p, f, outcomes)
    decreases |outcomes|
  {
    if outcomes == [] {
      assert outcomes + [last] == [last] && [last][1..] == [];
    } else {
      assert (outcomes + [last])[1..] == outcomes[1..] + [last];
      OneMoreDetect(s, if outcomes[0] then Skip(s, p, Limit(f)) else p, f, outcomes[1..], last);
    }
  }

  // Progress falls neither at an advance nor at any detect after it. The empty round is the state
  // between the two.
  lemma CallProgress(s: seq<Channel>, st: State, round: Round, last: bool)
    requires Room(s, st, |round| + 1)
    ensures Room(s, Step(s, st, round), 1) && Room(s, Step(s, st, round + [last]), 0)
    ensures Shown(s, st) <= Shown(s, Step(s, st, []))
    ensures Shown(s, Step(s, st, round)) <= Shown(s, Step(s, st, round + [last]))
  {
    if st.position > 0 {
      OneMoreDetect(s, GroupStart(s, st.position), s[st.position - 1].frequency, round, last);
    }
    hide GroupStart, Detect, Shown, Remaining;
    ShownRises(s, st, Step(s, st, []));
    ShownRises(s, Step(s, st, round), Step(s, st, round + [last]));
  }

  lemma StepProgress(s: seq<Channel>, st: State, round: Round, more: nat)
    requires Room(s, st, |round| + more)
    ensures Room(s, Step(s, st, round), more) && Step(s, st, round).scanned == st.scanned + |round|
    ensures Shown(s, st) <= Shown(s, Step(s, st, round))
  {
    hide GroupStart, Detect, Shown, Remaining;
    ShownRises(s, st, Step(s, st, round));
  }

  // Over every run the progress shown never falls and is below 100 exactly while a channel remains,
  // however often detect is called, as long as no 32-bit product overflows.
  lemma {:induction false} ProgressNeverFalls(s: seq<Channel>, st: State, rounds: seq<Round>)
    requires Room(s, st, Detects(rounds))
    ensures var end := Run(s, st, rounds);
            && Room(s, end, 0) && end.scanned == st.scanned + Detects(rounds)
            && Shown(s, st) <= Shown(s, end) <= 100
            && (Shown(s, end) < 100 <==> end.position > 0)
    decreases |rounds|
  {
    assert st.position <= |s|;
    hide Room, Step, Shown;
    if rounds == [] {
      ShownRange(s, st);
    } else {
      StepProgress(s, st, rounds[0], Detects(rounds[1..]));
      ProgressNeverFalls(s, Step(s, st, rounds[0]), rounds[1..]);
    }
  }

  // Until the scan is over, what was scanned and what remains are within the number of distinct
  // frequencies.
  ghost predicate Counted(s: seq<Channel>, st: State) {
    && st.position <= |s|
    && (st.position > 0 ==> st.scanned + Remaining(s, st.position) <= Remaining(s, |s|))
  }

  // That takes at most one detect for each advance.
  lemma {:induction false} CountsDistinct(s: seq<Channel>, st: State, rounds: seq<Round>)
    requires Counted(s, st) && forall round | round in rounds :: |round| <= 1
    ensures Counted(s, Run(s, st, rounds))
    decreases |rounds|
  {
    assert st.position <= |s|;
    if rounds != [] {
      CountsOne(s, st, rounds[0]);
      hide Counted, Step;
      CountsDistinct(s, Step(s, st, rounds[0]), rounds[1..]);
    }
  }

  lemma CountsOne(s: seq<Channel>, st: State, round: Round)
    requires Counted(s, st) && |round| <= 1
    ensures Counted(s, Step(s, st, round))
  {
    if st.position > 0 {
      StepRemaining(s, st, round);
      hide Remaining, GroupStart, Detect;
      WrapAtMost(st.scanned + |round|);
    }
  }

  lemma WrapAtMost(n: nat)
    ensures Wrap32(n) <= n
  {
  }

  // Rounded frequencies are at least 125000 apart, so that a built list has few enough of them.
  lemma {:induction false} FewRoundedFrequencies(s: seq<Channel>, p: nat)
    requires Sorted(s) && Rounded(s) && 0 < p <= |s|
    ensures RESOLUTION * (Remaining(s, p) - 1) <= s[p - 1].frequency
    ensures Remaining(s, p) <= 34360
  {
    assert s[p - 1] in s;
    if p > 1 {
      FewRoundedFrequencies(s, p - 1);
      assert s[p - 2] in s;
      if s[p - 2].frequency != s[p - 1].frequency {
        MultiplesApart(s[p - 2].frequency, s[p - 1].frequency);
      }
    }
  }

  lemma MultiplesApart(a: uint32, b: uint32)
    requires a % RESOLUTION == 0 && b % RESOLUTION == 0 && a < b
    ensures a + RESOLUTION <= b
  {
  }
}
