// The order of a channel list, on values: insertion behind all entries of the same or a lower
// frequency, and what a list built that way is.
module ChannelOrder {
  import opened Bytes

  datatype Channel = Channel(frequency: uint32, number: uint16, name: string)

  // ---------------------------------------------------------------- rounding

  lemma QuotientBelow(f: nat, n: nat)
    requires n > 0
    ensures 0 <= f / n * n <= f
  {
    var q, r := f / n, f % n;
    assert f == n * q + r;
  }

  // hdhomerun_channel_frequency_round; the sum is 32 bits wide.
  function Round(frequency: uint32, resolution: uint32): uint32
    requires resolution > 0
  {
    var f := Wrap32(frequency + resolution / 2);
    QuotientBelow(f, resolution);
    f / resolution * resolution
  }

  const RESOLUTION: uint32 := 125000

  function RoundNormal(frequency: uint32): uint32 {
    Round(frequency, RESOLUTION)
  }

  // Below the 32-bit overflow the result is the nearest multiple, order is kept, and rounding again
  // changes nothing.
  lemma RoundingLaws(a: uint32, b: uint32)
    requires a <= b && b + RESOLUTION / 2 < 0x1_0000_0000
    ensures -62500 < RoundNormal(a) - a <= 62500 && RoundNormal(a) % 125000 == 0
    ensures RoundNormal(a) <= RoundNormal(b)
  {
  }

  lemma RoundedIsMultiple(f: uint32)
    ensures RoundNormal(f) % RESOLUTION == 0
  {
  }

  // Multiples of the resolution are fixed points, without any bound: even the largest leaves room
  // for half the resolution.
  lemma RoundedIsFixed(f: uint32)
    requires f % RESOLUTION == 0
    ensures RoundNormal(f) == f
  {
    var k := f / RESOLUTION;
    assert f == 125000 * k && k <= 34359;
    assert (125000 * k + 62500) / 125000 == k;
  }

  // ---------------------------------------------------------------- insertion

  function Insert(s: seq<Channel>, c: Channel): (r: seq<Channel>)
    ensures |r| == |s| + 1
  {
    if s == [] || s[0].frequency > c.frequency then [c] + s else [s[0]] + Insert(s[1..], c)
  }

  function InsertAll(s: seq<Channel>, cs: seq<Channel>): (r: seq<Channel>)
    ensures |r| == |s| + |cs|
    decreases |cs|
  {
    if cs == [] then s else InsertAll(Insert(s, cs[0]), cs[1..])
  }

  ghost predicate Sorted(s: seq<Channel>) {
    forall i, j | 0 <= i < j < |s| :: s[i].frequency <= s[j].frequency
  }

  // The entries of one frequency, in order.
  function At(s: seq<Channel>, f: uint32): seq<Channel> {
    if s == [] then [] else (if s[0].frequency == f then [s[0]] else []) + At(s[1..], f)
  }

  // r is the stable sort of s by frequency: ordered, with the entries of every frequency in their
  // original order.
  ghost predicate IsStableSort(r: seq<Channel>, s: seq<Channel>) {
    Sorted(r) && forall f: uint32 :: At(r, f) == At(s, f)
  }

  lemma {:induction false} AtAppend(a: seq<Channel>, b: seq<Channel>, f: uint32)
    ensures At(a + b, f) == At(a, f) + At(b, f)
  {
    if a == [] {
      assert a + b == b;
    } else {
      assert (a + b)[0] == a[0] && (a + b)[1..] == a[1..] + b;
      AtAppend(a[1..], b, f);
      var head := if a[0].frequency == f then [a[0]] else [];
      assert head + (At(a[1..], f) + At(b, f)) == (head + At(a[1..], f)) + At(b, f);
    }
  }

  lemma {:induction false} AtNone(s: seq<Channel>, f: uint32)
    requires forall i | 0 <= i < |s| :: s[i].frequency != f
    ensures At(s, f) == []
  {
    if s != [] {
      AtNone(s[1..], f);
    }
  }

  lemma {:induction false} InsertSorted(s: seq<Channel>, c: Channel)
    requires Sorted(s)
    ensures Sorted(Insert(s, c))
    ensures forall i | 0 <= i < |Insert(s, c)| :: Insert(s, c)[i] == c || Insert(s, c)[i] in s
  {
    if s != [] && s[0].frequency <= c.frequency {
      InsertSorted(s[1..], c);
    }
  }

  lemma AtCons(c: Channel, s: seq<Channel>, f: uint32)
    ensures At([c] + s, f) == (if c.frequency == f then [c] else []) + At(s, f)
  {
    assert ([c] + s)[1..] == s;
  }

  lemma {:induction false} InsertAt(s: seq<Channel>, c: Channel, f: uint32)
    requires Sorted(s)
    ensures At(Insert(s, c), f) == At(s, f) + if c.frequency == f then [c] else []
  {
    hide At;
    if s == [] || s[0].frequency > c.frequency {
      AtCons(c, s, f);
      if c.frequency == f {
        AtNone(s, f);
      }
    } else {
      InsertAt(s[1..], c, f);
      AtCons(s[0], Insert(s[1..], c), f);
      AtCons(s[0], s[1..], f);
      assert s == [s[0]] + s[1..];
    }
  }

  lemma {:induction false} InsertAllSorts(s: seq<Channel>, cs: seq<Channel>, was: seq<Channel>)
    requires IsStableSort(s, was)
    ensures IsStableSort(InsertAll(s, cs), was + cs)
    decreases |cs|
  {
    if cs == [] {
      assert was + cs == was;
    } else {
      InsertSorted(s, cs[0]);
      forall f: uint32
        ensures At(Insert(s, cs[0]), f) == At(was + [cs[0]], f)
      {
        InsertAt(s, cs[0], f);
        AtAppend(was, [cs[0]], f);
        assert At([cs[0]], f) == (if cs[0].frequency == f then [cs[0]] else []) + At([], f);
      }
      InsertAllSorts(Insert(s, cs[0]), cs[1..], was + [cs[0]]);
      assert was + [cs[0]] + cs[1..] == was + cs;
    }
  }

  // A list built from nothing is the stable sort of what was generated.
  lemma BuildSorts(cs: seq<Channel>)
    ensures IsStableSort(InsertAll([], cs), cs)
  {
    InsertAllSorts([], cs, []);
    assert [] + cs == cs;
  }

  lemma {:induction false} InsertMultiset(s: seq<Channel>, c: Channel)
    ensures multiset(Insert(s, c)) == multiset(s) + multiset{c}
  {
    if s != [] && s[0].frequency <= c.frequency {
      InsertMultiset(s[1..], c);
      assert s == [s[0]] + s[1..];
    }
  }

  // Each generated entry appears exactly as often as it was generated.
  lemma {:induction false} BuildKeepsEntries(s: seq<Channel>, cs: seq<Channel>)
    ensures multiset(InsertAll(s, cs)) == multiset(s) + multiset(cs)
    decreases |cs|
  {
    if cs != [] {
      InsertMultiset(s, cs[0]);
      BuildKeepsEntries(Insert(s, cs[0]), cs[1..]);
      assert cs == [cs[0]] + cs[1..];
    }
  }

  lemma AtFirst(s: seq<Channel>)
    requires Sorted(s) && s != []
    ensures At(s, s[0].frequency) != [] && At(s, s[0].frequency)[0] == s[0]
  {
  }

  lemma {:induction false} AtMember(s: seq<Channel>, f: uint32)
    requires At(s, f) != []
    ensures exists i :: 0 <= i < |s| && s[i].frequency == f
  {
    if s[0].frequency != f {
      AtMember(s[1..], f);
      var i :| 0 <= i < |s[1..]| && s[1..][i].frequency == f;
      assert s[i + 1].frequency == f;
    }
  }

  lemma LowestFirst(a: seq<Channel>, b: seq<Channel>)
    requires Sorted(a) && Sorted(b) && a != [] && (forall f: uint32 :: At(a, f) == At(b, f))
    ensures b != [] && b[0].frequency <= a[0].frequency
  {
    AtFirst(a);
    AtMember(b, a[0].frequency);
  }

  lemma TailsAgree(a: seq<Channel>, b: seq<Channel>, f: uint32)
    requires a != [] && b != [] && a[0] == b[0] && At(a, f) == At(b, f)
    ensures At(a[1..], f) == At(b[1..], f)
  {
    hide At;
    AtCons(a[0], a[1..], f);
    AtCons(b[0], b[1..], f);
    assert a == [a[0]] + a[1..] && b == [b[0]] + b[1..];
    var head := if a[0].frequency == f then [a[0]] else [];
    assert (head + At(a[1..], f))[|head|..] == At(a[1..], f);
    assert (head + At(b[1..], f))[|head|..] == At(b[1..], f);
  }

  // There is only one stable sort.
  lemma {:induction false} StableSortIsUnique(a: seq<Channel>, b: seq<Channel>)
    requires Sorted(a) && Sorted(b) && (forall f: uint32 :: At(a, f) == At(b, f))
    ensures a == b
    decreases |a|
  {
    hide At;
    if a == [] {
      if b != [] {
        LowestFirst(b, a);
      }
    } else {
      LowestFirst(a, b);
      LowestFirst(b, a);
      AtFirst(a);
      AtFirst(b);
      forall f: uint32
        ensures At(a[1..], f) == At(b[1..], f)
      {
        TailsAgree(a, b, f);
      }
      StableSortIsUnique(a[1..], b[1..]);
      assert a == [a[0]] + a[1..] && b == [b[0]] + b[1..];
    }
  }

  lemma {:induction false} InsertAllAppend(s: seq<Channel>, a: seq<Channel>, b: seq<Channel>)
    ensures InsertAll(s, a + b) == InsertAll(InsertAll(s, a), b)
    decreases |a|
  {
    if a == [] {
      assert a + b == b;
    } else {
      assert (a + b)[0] == a[0] && (a + b)[1..] == a[1..] + b;
      InsertAllAppend(Insert(s, a[0]), a[1..], b);
    }
  }

  // ---------------------------------------------------------------- the range tables

  datatype Range = Range(first: uint16, last: uint16, frequency: uint32, spacing: uint32)
  datatype Record = Record(channelmap: string, ranges: seq<Range>)

  function Decimal(n: nat): string {
    if n < 10 then ["0123456789"[n]] else Decimal(n / 10) + ["0123456789"[n % 10]]
  }

  // "%s:%u" in the sixteen bytes of an entry's name; the bounded printf uses fourteen of them.
  function Name(channelmap: string, number: nat): string {
    var full := channelmap + ":" + Decimal(number);
    if |full| <= 14 then full else full[..14]
  }

  function RangeChannel(channelmap: string, r: Range, number: uint16): Channel
    requires r.first <= number
  {
    var offset: int := number - r.first;
    Channel(RoundNormal(Wrap32(r.frequency + offset * r.spacing)), number, Name(channelmap, number))
  }

  // The channels of a range with numbers below `end`.
  function RangeTo(channelmap: string, r: Range, end: nat): seq<Channel>
    requires end <= 0x1_0000
  {
    if end <= r.first then [] else RangeTo(channelmap, r, end - 1) + [RangeChannel(channelmap, r, end - 1)]
  }

  // A range with frequency zero ends the table.
  function RangesChannels(channelmap: string, ranges: seq<Range>): seq<Channel>
    decreases |ranges|
  {
    if ranges == [] || ranges[0].frequency == 0 then []
    else RangeTo(channelmap, ranges[0], ranges[0].last + 1) + RangesChannels(channelmap, ranges[1..])
  }

  // strstr
  predicate Contains(text: string, part: string) {
    part <= text || (text != "" && Contains(text[1..], part))
  }

  function TableChannels(channelmap: string, table: seq<Record>): seq<Channel>
    decreases |table|
  {
    if table == [] then []
    else
      (if Contains(channelmap, table[0].channelmap) then RangesChannels(table[0].channelmap, table[0].ranges) else [])
      + TableChannels(channelmap, table[1..])
  }

  predicate StandsAt(text: string, part: string, i: nat) {
    i + |part| <= |text| && text[i..i + |part|] == part
  }

  // strstr finds the part iff it stands somewhere in the text.
  lemma {:induction false} ContainsMeaning(text: string, part: string)
    ensures Contains(text, part) <==> exists i: nat :: StandsAt(text, part, i)
  {
    if part <= text {
      assert StandsAt(text, part, 0);
    } else if text != "" {
      ContainsMeaning(text[1..], part);
      if Contains(text[1..], part) {
        var i: nat :| StandsAt(text[1..], part, i);
        assert StandsAt(text, part, i + 1);
      }
      if i: nat :| StandsAt(text, part, i) {
        assert i > 0;
        assert StandsAt(text[1..], part, i - 1);
      }
    }
  }

  // A decimal number as it is read, digit by digit.
  function ReadDecimal(s: string): int {
    if s == "" then 0 else 10 * ReadDecimal(s[..|s| - 1]) + (s[|s| - 1] as int - 0x30)
  }

  lemma {:induction false} DecimalRoundTrip(n: nat)
    ensures ReadDecimal(Decimal(n)) == n
    ensures Decimal(n) != "" && forall i | 0 <= i < |Decimal(n)| :: '0' <= Decimal(n)[i] <= '9'
  {
    DigitChar(n % 10);
    if n >= 10 {
      DecimalRoundTrip(n / 10);
      var s := Decimal(n);
      assert s[..|s| - 1] == Decimal(n / 10);
    } else {
      assert Decimal(n)[..0] == "";
    }
  }

  lemma DigitChar(d: nat)
    requires d < 10
    ensures '0' <= "0123456789"[d] <= '9' && "0123456789"[d] as int == 0x30 + d
  {
  }

  // The name of an entry: map, colon and number, of which the first fourteen characters are kept.
  lemma NameLayout(channelmap: string, number: nat)
    ensures exists digits: string ::
              && ReadDecimal(digits) == number && (forall i | 0 <= i < |digits| :: '0' <= digits[i] <= '9')
              && Name(channelmap, number) <= channelmap + ":" + digits
              && |Name(channelmap, number)| == Min(14, |channelmap + ":" + digits|)
  {
    DecimalRoundTrip(number);
    var digits := Decimal(number);
    assert Name(channelmap, number) <= channelmap + ":" + digits;
  }

  // Tables are taken record by record, each for itself, and records range by range up to one without
  // a frequency.
  lemma {:induction false} TableAppend(channelmap: string, a: seq<Record>, b: seq<Record>)
    ensures TableChannels(channelmap, a + b) == TableChannels(channelmap, a) + TableChannels(channelmap, b)
    decreases |a|
  {
    hide Contains, RangesChannels;
    if a == [] {
      assert a + b == b;
    } else {
      assert (a + b)[0] == a[0] && (a + b)[1..] == a[1..] + b;
      TableAppend(channelmap, a[1..], b);
    }
  }

  lemma OneRecord(channelmap: string, record: Record)
    ensures var found := exists i: nat :: StandsAt(channelmap, record.channelmap, i);
            TableChannels(channelmap, [record])
              == if found then RangesChannels(record.channelmap, record.ranges) else []
  {
    ContainsMeaning(channelmap, record.channelmap);
    hide Contains, RangesChannels, StandsAt;
    assert [record][1..] == [];
    assert TableChannels(channelmap, []) == [];
  }

  lemma {:induction false} RangesAppend(channelmap: string, a: seq<Range>, b: seq<Range>)
    requires forall i | 0 <= i < |a| :: a[i].frequency != 0
    ensures RangesChannels(channelmap, a + b) == RangesChannels(channelmap, a) + RangesChannels(channelmap, b)
    decreases |a|
  {
    hide RangeTo;
    if a == [] {
      assert a + b == b;
    } else {
      assert (a + b)[0] == a[0] && (a + b)[1..] == a[1..] + b;
      RangesAppend(channelmap, a[1..], b);
    }
  }

  lemma OneRange(channelmap: string, r: Range, b: seq<Range>)
    ensures r.frequency == 0 ==> RangesChannels(channelmap, [r] + b) == []
    ensures r.frequency != 0 ==> RangesChannels(channelmap, [r]) == RangeTo(channelmap, r, r.last + 1)
  {
    hide RangeTo;
    assert [r][1..] == [];
  }

  lemma {:induction false} RangeAt(channelmap: string, r: Range, end: nat, i: nat)
    requires r.first <= end <= 0x1_0000
    ensures |RangeTo(channelmap, r, end)| == end - r.first
    ensures i < end - r.first ==> RangeTo(channelmap, r, end)[i] == RangeChannel(channelmap, r, r.first + i)
    decreases end
  {
    hide RangeChannel;
    if r.first < end {
      RangeAt(channelmap, r, end - 1, i);
    }
  }

  lemma Nearest(f: uint32)
    ensures if f + 62500 < 0x1_0000_0000 then -62500 < RoundNormal(f) - f <= 62500 && RoundNormal(f) % 125000 == 0
            else RoundNormal(f) == 0
  {
    if f + 62500 < 0x1_0000_0000 {
      RoundingLaws(f, f);
    }
  }

  // One channel for every number of the range, at its place in the spacing, in 32 bits, moved to the
  // nearest multiple of 125 kHz; the last 62.5 kHz of the 32 bits go to zero.
  lemma RangeMeaning(channelmap: string, r: Range, i: nat)
    requires r.first <= r.last && i <= r.last - r.first
    ensures var cs := RangeTo(channelmap, r, r.last + 1);
            var exact := (r.frequency + i * r.spacing) % 0x1_0000_0000;
            && |cs| == r.last - r.first + 1
            && cs[i].number == r.first + i && cs[i].name == Name(channelmap, r.first + i)
            && var f := cs[i].frequency;
               if exact + 62500 < 0x1_0000_0000 then -62500 < f - exact <= 62500 && f % 125000 == 0 else f == 0
  {
    hide Name, RoundNormal, RangeTo;
    RangeAt(channelmap, r, r.last + 1, i);
    Nearest(Wrap32(r.frequency + i * r.spacing));
  }

  lemma {:induction false} AllRounded(channelmap: string, r: Range, end: nat)
    requires end <= 0x1_0000
    ensures forall i | 0 <= i < |RangeTo(channelmap, r, end)| ::
              RangeTo(channelmap, r, end)[i].frequency % RESOLUTION == 0
  {
    hide RoundNormal, Wrap32, Name;
    if end > r.first {
      AllRounded(channelmap, r, end - 1);
      RoundedIsMultiple(Wrap32(r.frequency + (end - 1 - r.first) * r.spacing));
    }
  }

  ghost predicate Rounded(s: seq<Channel>) {
    forall c | c in s :: c.frequency % RESOLUTION == 0
  }

  lemma {:induction false} RangesRounded(channelmap: string, ranges: seq<Range>)
    ensures Rounded(RangesChannels(channelmap, ranges))
    decreases |ranges|
  {
    if ranges != [] && ranges[0].frequency != 0 {
      AllRounded(channelmap, ranges[0], ranges[0].last + 1);
      RangesRounded(channelmap, ranges[1..]);
    }
  }

  lemma {:induction false} TableRounded(channelmap: string, table: seq<Record>)
    ensures Rounded(TableChannels(channelmap, table))
    decreases |table|
  {
    if table != [] {
      RangesRounded(table[0].channelmap, table[0].ranges);
      TableRounded(channelmap, table[1..]);
    }
  }

  // Every list built from a table: the stable sort of the generated channels, all of whose
  // frequencies are multiples of the resolution.
  lemma BuiltList(channelmap: string, table: seq<Record>)
    ensures var cs := TableChannels(channelmap, table);
            var built := InsertAll([], cs);
            && IsStableSort(built, cs) && multiset(built) == multiset(cs) && Rounded(built)
  {
    var cs := TableChannels(channelmap, table);
    var built := InsertAll([], cs);
    BuildSorts(cs);
    BuildKeepsEntries([], cs);
    TableRounded(channelmap, table);
    assert multiset([]) + multiset(cs) == multiset(cs);
    forall c | c in built
      ensures c.frequency % RESOLUTION == 0
    {
      assert c in multiset(cs);
    }
  }

  // ---------------------------------------------------------------- lookups

  function FrequencyOf(s: seq<Channel>, number: uint16): uint32 {
    if s == [] then 0 else if s[0].number == number then s[0].frequency else FrequencyOf(s[1..], number)
  }

  // The frequency of the first entry with the number, or zero.
  lemma {:induction false} FrequencyOfFirst(s: seq<Channel>, number: uint16)
    ensures (forall i | 0 <= i < |s| :: s[i].number != number) ==> FrequencyOf(s, number) == 0
    ensures forall i | 0 <= i < |s| && s[i].number == number && (forall j | 0 <= j < i :: s[j].number != number) ::
              FrequencyOf(s, number) == s[i].frequency
  {
    if s != [] {
      FrequencyOfFirst(s[1..], number);
      forall i | 1 <= i < |s| && s[i].number == number && (forall j | 0 <= j < i :: s[j].number != number)
        ensures FrequencyOf(s, number) == s[i].frequency
      {
        assert s[0].number != number && s[1..][i - 1] == s[i];
        assert forall j | 0 <= j < i - 1 :: s[1..][j] == s[j + 1];
      }
    }
  }

  // The first channel of a frequency, by a full scan.
  function NumberAt(s: seq<Channel>, f: uint32): uint16 {
    if s == [] then 0 else if s[0].frequency == f then s[0].number else NumberAt(s[1..], f)
  }

  lemma {:induction false} NumberAtMeaning(s: seq<Channel>, f: uint32)
    ensures NumberAt(s, f) == if At(s, f) == [] then 0 else At(s, f)[0].number
  {
    if s != [] {
      NumberAtMeaning(s[1..], f);
    }
  }

  lemma {:induction false} NumberAtAbsent(s: seq<Channel>, f: uint32)
    requires forall i | 0 <= i < |s| :: s[i].frequency != f
    ensures NumberAt(s, f) == 0
  {
    if s != [] {
      NumberAtAbsent(s[1..], f);
    }
  }

  lemma {:induction false} FrequencyOfMember(s: seq<Channel>, number: uint16)
    requires exists c :: c in s && c.number == number
    ensures exists c :: c in s && c.number == number && c.frequency == FrequencyOf(s, number)
  {
    if s[0].number == number {
      assert s[0] in s;
    } else {
      var c :| c in s && c.number == number;
      assert s == [s[0]] + s[1..];
      assert c in s[1..];
      FrequencyOfMember(s[1..], number);
    }
  }

  lemma {:induction false} NumberAtMember(s: seq<Channel>, f: uint32)
    requires exists c :: c in s && c.frequency == f
    ensures exists c :: c in s && c.frequency == f && c.number == NumberAt(s, f)
  {
    if s[0].frequency == f {
      assert s[0] in s;
    } else {
      var c :| c in s && c.frequency == f;
      assert s == [s[0]] + s[1..];
      assert c in s[1..];
      NumberAtMember(s[1..], f);
    }
  }

  // From a number to its frequency and back: some channel of that frequency has the number found.
  lemma ThereAndBack(s: seq<Channel>, number: uint16)
    requires Rounded(s) && exists c :: c in s && c.number == number
    ensures var f := FrequencyOf(s, number);
            exists c :: c in s && c.frequency == f && c.number == NumberAt(s, RoundNormal(f))
  {
    FrequencyOfMember(s, number);
    var f := FrequencyOf(s, number);
    RoundedIsFixed(f);
    NumberAtMember(s, f);
  }

  // ---------------------------------------------------------------- distinct frequencies

  function Frequencies(s: seq<Channel>): set<uint32> {
    if s == [] then {} else {s[0].frequency} + Frequencies(s[1..])
  }

  lemma {:induction false} FrequenciesMeaning(s: seq<Channel>, f: uint32)
    ensures f in Frequencies(s) <==> At(s, f) != []
  {
    if s != [] {
      FrequenciesMeaning(s[1..], f);
    }
  }

  lemma {:induction false} FrequenciesAbove(s: seq<Channel>, low: uint32)
    requires forall i | 0 <= i < |s| :: low <= s[i].frequency
    ensures forall f | f in Frequencies(s) :: low <= f
  {
    if s != [] {
      FrequenciesAbove(s[1..], low);
    }
  }

  // The count over a list, given the frequency of the entry before it.
  function CountChanges(s: seq<Channel>, last: uint32): nat {
    if s == [] then 0
    else (if s[0].frequency != last then 1 else 0) + CountChanges(s[1..], s[0].frequency)
  }

  lemma {:induction false} ChangesAreDistinct(s: seq<Channel>, last: uint32)
    requires Sorted(s) && (forall i | 0 <= i < |s| :: last <= s[i].frequency)
    ensures CountChanges(s, last) == |Frequencies(s) - {last}|
  {
    if s == [] {
      assert Frequencies(s) - {last} == {};
    } else {
      var f := s[0].frequency;
      ChangesAreDistinct(s[1..], f);
      if f == last {
        assert Frequencies(s) - {last} == Frequencies(s[1..]) - {f};
      } else {
        FrequenciesAbove(s[1..], f);
        assert Frequencies(s) - {last} == {f} + (Frequencies(s[1..]) - {f});
      }
    }
  }

  // The count starts from frequency zero, so on an ordered list it is the number of distinct nonzero
  // frequencies.
  lemma FrequencyCountIsDistinct(s: seq<Channel>)
    requires Sorted(s)
    ensures CountChanges(s, 0) == |Frequencies(s) - {0}|
  {
    ChangesAreDistinct(s, 0);
  }
}
