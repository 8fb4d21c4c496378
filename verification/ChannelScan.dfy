// The scan's state: the entry it will report next, and how many channels it has tried.
module ChannelScan {
  import opened Bytes
  import opened ChannelOrder
  import opened Channels
  import opened ScanRuns

  // The text of a result's 64 bytes: the bounded printf leaves room for 62 characters.
  const TEXT_ROOM: nat := 62

  function Clip(text: string): string {
    if |text| <= TEXT_ROOM then text else text[..TEXT_ROOM]
  }

  // The first 62 characters.
  lemma ClipMeaning(text: string)
    ensures Clip(text) <= text && |Clip(text)| == Min(62, |text|)
  {
  }

  // The names stand from the last entry of the frequency down to its first, with a comma and a space
  // between two.
  lemma {:induction false} NamesMeaning(s: seq<Channel>, q: nat, p: nat)
    requires q < p <= |s|
    ensures Names(s, q, p) == if q + 1 == p then s[q].name else s[p - 1].name + ", " + Names(s, q, p - 1)
    decreases p - q
  {
    if q + 2 < p {
      NamesMeaning(s, q + 1, p);
      assert s[p - 1].name + ", " + Names(s, q + 1, p - 1) + ", " + s[q].name
          == s[p - 1].name + ", " + (Names(s, q + 1, p - 1) + ", " + s[q].name);
    } else if q + 2 == p {
      assert Names(s, q, p) == s[q + 1].name + ", " + s[q].name;
    }
  }

  lemma ClipAppend(a: string, b: string)
    ensures Clip(Clip(a) + b) == Clip(a + b)
  {
    if |a| > TEXT_ROOM {
      assert (a[..TEXT_ROOM] + b)[..TEXT_ROOM] == (a + b)[..TEXT_ROOM];
    }
  }

  // One step of the walk that joins the entries q, ..., p-1.
  lemma OneLower(s: seq<Channel>, q: nat, p: nat)
    requires q < p <= |s|
    ensures q == 0 || s[q - 1].frequency != s[q].frequency ==> GroupStart(s, q + 1) == q
    ensures q > 0 && s[q - 1].frequency == s[q].frequency ==> GroupStart(s, q + 1) == GroupStart(s, q)
    ensures q > 0 ==> Clip(Clip(Names(s, q, p)) + (", " + s[q - 1].name)) == Clip(Names(s, q - 1, p))
  {
    hide Clip;
    if q > 0 {
      ClipAppend(Names(s, q, p), ", " + s[q - 1].name);
      assert Names(s, q - 1, p) == Names(s, q, p) + (", " + s[q - 1].name);
    }
  }

  // What an advance reports.
  datatype Result = Result(frequency: uint32, text: string)

  ghost predicate IsResult(s: seq<Channel>, result: Result, r: Report) {
    r.from < r.to <= |s| && result == Result(r.frequency, Clip(Names(s, r.from, r.to)))
  }

  lemma WrapNext(n: nat)
    ensures Wrap32(Wrap32(n) + 1) == Wrap32(n + 1)
  {
  }

  lemma RunOneRound(s: seq<Channel>, st: State, rounds: seq<Round>, k: nat)
    requires st.position <= |s| && k < |rounds|
    ensures Run(s, st, rounds[k..]) == Run(s, Step(s, st, rounds[k]), rounds[k + 1..])
    ensures st.reports <= Step(s, st, rounds[k]).reports
  {
    assert rounds[k..][1..] == rounds[k + 1..];
  }

  lemma RunNoRounds(s: seq<Channel>, st: State, rounds: seq<Round>)
    requires st.position <= |s|
    ensures Run(s, st, rounds[|rounds|..]) == st
  {
  }

  class Scan {
    const list: ChannelList
    var nextChannel: Entry?
    var scannedChannels: uint32
    ghost var position: nat

    ghost predicate Valid()
      reads this, list, list.repr
    {
      list.Valid() && position <= |list.entries| && nextChannel == NthOrNull(list.entries, position - 1)
    }

    ghost function Channels(): seq<Channel>
      reads list`entries
    {
      list.Channels()
    }

    constructor (list: ChannelList)
      requires list.Valid()
      ensures Valid() && this.list == list
      ensures position == |Channels()| && scannedChannels == 0
    {
      this.list := list;
      nextChannel := list.tail;
      scannedChannels := 0;
      position := |list.entries|;
    }

    // channelscan_advance. The entries of one frequency become one result.
    method Advance() returns (found: bool, frequency: uint32, text: string)
      requires Valid()
      modifies this
      ensures Valid() && scannedChannels == old(scannedChannels)
      ensures found <==> old(position) > 0
      ensures !found ==> position == 0 && frequency == 0 && text == ""
      ensures found ==> position == GroupStart(Channels(), old(position))
      ensures found ==> frequency == Channels()[old(position) - 1].frequency
      ensures found ==> text == Clip(Names(Channels(), position, old(position)))
    {
      found, frequency, text := false, 0, "";
      var entry := nextChannel;
      if entry == null {
        return;
      }
      found, frequency := true, entry.channel.frequency;
      hide ChannelList.Linked, ChannelList.Valid, Names, GroupStart, Clip;
      entry, text := Combine(entry);
      position := GroupStart(Channels(), position);
      nextChannel := entry;
    }

    // The walk down through the entries of one frequency, to the one that comes next.
    method Combine(last: Entry) returns (entry: Entry?, text: string)
      requires Valid() && nextChannel == last
      ensures var q := GroupStart(Channels(), position);
              && entry == NthOrNull(list.entries, q - 1)
              && text == Clip(Names(Channels(), q, position))
    {
      hide ChannelList.Linked, ChannelList.Valid, Clip;
      var frequency := last.channel.frequency;
      text := Clip(last.channel.name);
      entry := last;
      ghost var q := position - 1;
      while true
        invariant 0 <= q < position && entry != null && entry == list.entries[q]
        invariant entry.channel.frequency == frequency
        invariant GroupStart(Channels(), position) == GroupStart(Channels(), q + 1)
        invariant text == Clip(Names(Channels(), q, position))
        decreases q
      {
        hide Names, GroupStart, Values;
        OneLower(Channels(), q, position);
        entry := Prev(entry, q);
        if entry == null || entry.channel.frequency != frequency {
          break;
        }
        text := Clip(text + (", " + entry.channel.name));
        q := q - 1;
      }
    }

    // hdhomerun_channel_list_prev
    method Prev(entry: Entry, ghost i: nat) returns (prev: Entry?)
      requires list.Valid() && i < |list.entries| && entry == list.entries[i]
      ensures prev == NthOrNull(list.entries, i - 1)
    {
      prev := entry.prev;
    }

    // channelscan_detect, as far as the scan's own state goes: `reached` says whether the call got
    // to the skip.
    method Detect(frequency: uint32, reached: bool)
      requires Valid()
      modifies this
      ensures Valid() && scannedChannels == Wrap32(old(scannedChannels) + 1)
      ensures position == if reached then Skip(Channels(), old(position), Limit(frequency)) else old(position)
    {
      hide ChannelList.Linked, ChannelList.Valid, Limit, Wrap32;
      scannedChannels := Wrap32(scannedChannels + 1);
      if reached {
        SkipOverlapping(Limit(frequency));
      }
    }

    method SkipOverlapping(limit: uint32)
      requires Valid()
      modifies `nextChannel, `position
      ensures Valid() && position == Skip(Channels(), old(position), limit)
    {
      hide ChannelList.Linked, ChannelList.Valid;
      var entry := nextChannel;
      ghost var p := position;
      while entry != null && entry.channel.frequency > limit
        invariant 0 <= p <= position && entry == NthOrNull(list.entries, p - 1)
        invariant Valid() && position == old(position)
        invariant Skip(Channels(), p, limit) == Skip(Channels(), position, limit)
        decreases p
      {
        hide Values;
        entry := Prev(entry, p - 1);
        p := p - 1;
      }
      nextChannel, position := entry, p;
    }

    ghost function View(reports: seq<Report>): State
      reads this
    {
      State(position, scannedChannels, reports)
    }

    // One advance and the detects after it, of the result it gave.
    method ScanRound(round: Round, ghost reports: seq<Report>) returns (result: Option<Result>)
      requires Valid()
      modifies this
      ensures Valid()
      ensures var next := Step(Channels(), old(View(reports)), round);
              && View(next.reports) == next
              && match result
                 case None => next.reports == reports
                 case Some(r) => |next.reports| == |reports| + 1 && IsResult(Channels(), r, next.reports[|reports|])
    {
      var found, frequency, text := Advance();
      hide ChannelList.Linked, ChannelList.Valid, GroupStart, Skip, Limit, Clip, Names, Wrap32;
      DetectAll(frequency, round);
      if !found {
        return None;
      }
      return Some(Result(frequency, text));
    }

    method DetectAll(frequency: uint32, round: Round)
      requires Valid()
      modifies this
      ensures Valid() && scannedChannels == Wrap32(old(scannedChannels) + |round|)
      ensures position == ScanRuns.Detect(Channels(), old(position), frequency, round)
    {
      hide ChannelList.Linked, ChannelList.Valid, Values, Skip, Limit, Wrap32;
      ghost var p, n := position, scannedChannels;
      assert round[0..] == round;
      for k := 0 to |round|
        invariant Valid() && scannedChannels == Wrap32(n + k)
        invariant ScanRuns.Detect(Channels(), position, frequency, round[k..])
               == ScanRuns.Detect(Channels(), p, frequency, round)
      {
        assert round[k..][1..] == round[k + 1..];
        Detect(frequency, round[k]);
        WrapNext(n + k);
      }
      assert round[|round|..] == [];
    }

    // Any number of rounds, as the scan command makes them until nothing is found.
    method ScanRounds(rounds: seq<Round>) returns (results: seq<Result>, ghost reports: seq<Report>)
      requires Valid()
      modifies this
      ensures Valid() && View(reports) == Run(Channels(), old(View([])), rounds)
      ensures |results| == |reports| && forall k | 0 <= k < |results| :: IsResult(Channels(), results[k], reports[k])
    {
      hide ChannelList.Linked, ChannelList.Valid, Values, IsResult, Run, Step;
      results, reports := [], [];
      ghost var start := View([]);
      assert rounds[0..] == rounds;
      for k := 0 to |rounds|
        invariant Valid() && Run(Channels(), View(reports), rounds[k..]) == Run(Channels(), start, rounds)
        invariant |results| == |reports|
        invariant forall j | 0 <= j < |results| :: IsResult(Channels(), results[j], reports[j])
      {
        RunOneRound(Channels(), View(reports), rounds, k);
        ghost var next := Step(Channels(), View(reports), rounds[k]);
        var result := ScanRound(rounds[k], reports);
        if result.Some? {
          results := results + [result.value];
        }
        reports := next.reports;
      }
      RunNoRounds(Channels(), View(reports), rounds);
    }

    // channelscan_get_progress
    method GetProgress() returns (progress: byte)
      requires Valid()
      requires position > 0 ==> Wrap32(scannedChannels + Remaining(Channels(), position)) != 0
      ensures progress == Progress(Remaining(Channels(), position), scannedChannels)
    {
      hide ChannelList.Linked, ChannelList.Valid, Wrap32;
      if nextChannel == null {
        return 100;
      }
      var entry: Entry := nextChannel;
      var remaining: nat := 1;
      var frequency := entry.channel.frequency;
      ghost var q := position - 1;
      ghost var all := Remaining(Channels(), position);
      while true
        invariant 0 <= q < position && entry == list.entries[q] && frequency == entry.channel.frequency
        invariant remaining - 1 + Remaining(Channels(), q + 1) == all
        decreases q
      {
        hide Progress;
        var prev := Prev(entry, q);
        if prev == null {
          break;
        }
        entry := prev;
        if entry.channel.frequency != frequency {
          remaining := remaining + 1;
          frequency := entry.channel.frequency;
        }
        q := q - 1;
      }
      assert remaining == all;
      progress := Wrap32(scannedChannels * 100) / Wrap32(scannedChannels + remaining) % 0x100;
    }
  }

  // channelscan_create over any table.
  method CreateScan(channelmap: string, table: seq<Record>) returns (scan: Scan?)
    requires forall record, r | record in table && r in record.ranges :: r.last < 0xFFFF
    ensures scan == null <==> TableChannels(channelmap, table) == []
    ensures scan != null ==> fresh(scan) && scan.Valid()
    ensures scan != null ==> scan.Channels() == InsertAll([], TableChannels(channelmap, table))
    ensures scan != null ==> scan.position == |scan.Channels()| && scan.scannedChannels == 0
  {
    hide ChannelList.Valid, ChannelList.Linked, InsertAll, TableChannels;
    var list := CreateList(channelmap, table);
    if list == null {
      return null;
    }
    scan := new Scan(list);
  }

  // A scan of every list built from a table: whatever locks, the first rounds, one for each distinct
  // frequency, deal with all of it. The progress shown is sound as long as detect is called fewer than
  // forty million times, and with one detect for each advance it counts within the frequencies.
  lemma EveryBuiltScan(channelmap: string, table: seq<Record>, rounds: seq<Round>)
    ensures var s := InsertAll([], TableChannels(channelmap, table));
            var end := Run(s, Start(s), rounds);
            && Sorted(s) && Scanned(s, end)
            && (|rounds| >= |Frequencies(s)| ==> end.position == 0)
            && (Detects(rounds) <= MOST - 34360 ==>
                  && Room(s, Start(s), 0) && Room(s, end, 0)
                  && Shown(s, Start(s)) <= Shown(s, end) <= 100
                  && (Shown(s, end) < 100 <==> end.position > 0))
            && ((forall round | round in rounds :: |round| <= 1) ==> Counted(s, end))
  {
    var s := InsertAll([], TableChannels(channelmap, table));
    BuiltList(channelmap, table);
    hide InsertAll, TableChannels, Run, Scanned, Rounded, Frequencies, Shown;
    StartScans(s);
    RunScans(s, Start(s), rounds);
    RemainingIsDistinct(s, |s|);
    assert s[..|s|] == s;
    if |rounds| >= |Frequencies(s)| {
      ScanEnds(s, Start(s), rounds);
    }
    if s != [] {
      FewRoundedFrequencies(s, |s|);
    }
    if Detects(rounds) <= MOST - 34360 {
      ProgressNeverFalls(s, Start(s), rounds);
    }
    if forall round | round in rounds :: |round| <= 1 {
      CountsDistinct(s, Start(s), rounds);
    }
  }
}
