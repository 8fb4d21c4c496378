// The channel list: doubly linked entries kept in frequency order, built from the range tables.
module Channels {
  import opened Bytes
  import opened ChannelOrder

  class Entry {
    var next: Entry?
    var prev: Entry?
    const channel: Channel

    constructor (channel: Channel)
      ensures this.channel == channel && next == null && prev == null
    {
      this.channel := channel;
      next, prev := null, null;
    }
  }

  function Values(entries: seq<Entry>): (s: seq<Channel>)
    ensures |s| == |entries|
    ensures forall i | 0 <= i < |s| :: s[i] == entries[i].channel
  {
    seq(|entries|, i requires 0 <= i < |entries| => entries[i].channel)
  }

  lemma Spliced(was: seq<Entry>, entry: Entry, k: nat)
    requires k <= |was|
    ensures var now := was[..k] + [entry] + was[k..];
            && Values(now) == Values(was)[..k] + [entry.channel] + Values(was)[k..]
            && (forall i | 0 <= i < |now| :: now[i] == if i < k then was[i] else if i == k then entry else was[i - 1])
  {
  }

  class ChannelList {
    var head: Entry?
    var tail: Entry?
    ghost var entries: seq<Entry>
    ghost var repr: set<Entry>

    ghost predicate Valid()
      reads this, repr
    {
      (forall i | 0 <= i < |entries| :: entries[i] in repr) && Linked()
    }

    // Forward and backward links both spell `entries`, which has no entry twice.
    ghost predicate Linked()
      reads `head, `tail, `entries, entries
    {
      && (forall i, j | 0 <= i < j < |entries| :: entries[i] != entries[j])
      && head == NthOrNull(entries, 0) && tail == NthOrNull(entries, |entries| - 1)
      && (forall i {:trigger entries[i].next} | 0 <= i < |entries| :: entries[i].next == NthOrNull(entries, i + 1))
      && (forall i {:trigger entries[i].prev} | 0 <= i < |entries| :: entries[i].prev == NthOrNull(entries, i - 1))
    }

    ghost function Channels(): seq<Channel>
      reads `entries
    {
      Values(entries)
    }

    constructor ()
      ensures Valid() && entries == [] && repr == {}
    {
      head, tail, entries, repr := null, null, [], {};
    }

    // hdhomerun_channel_list_build_insert
    method BuildInsert(entry: Entry)
      requires Valid() && entry !in repr
      modifies this, repr, entry
      ensures Valid() && repr == old(repr) + {entry}
      ensures Channels() == Insert(old(Channels()), entry.channel)
    {
      var prev, next;
      ghost var k;
      hide Insert, Linked, NthOrNull, Values;
      prev, next, k := FindPlace(entry.channel);
      ghost var was := entries;
      Spliced(was, entry, k);
      Link(entry, prev, next, k);
      repr := repr + {entry};
      forall i | 0 <= i < |entries|
        ensures entries[i] in repr
      {
        assert entries[i] == if i < k then was[i] else if i == k then entry else was[i - 1];
      }
    }

    // The walk to the first entry of a higher frequency.
    method FindPlace(channel: Channel) returns (prev: Entry?, next: Entry?, ghost k: nat)
      requires Linked()
      ensures k <= |entries| && next == NthOrNull(entries, k) && prev == NthOrNull(entries, k - 1)
      ensures Insert(Channels(), channel) == Channels()[..k] + [channel] + Channels()[k..]
    {
      k := 0;
      prev := null;
      next := head;
      while next != null
        invariant 0 <= k <= |entries| && next == NthOrNull(entries, k) && prev == NthOrNull(entries, k - 1)
        invariant forall i | 0 <= i < k :: Channels()[i].frequency <= channel.frequency
        decreases |entries| - k
      {
        hide Insert;
        if next.channel.frequency > channel.frequency {
          break;
        }
        prev := next;
        next := next.next;
        k := k + 1;
      }
      InsertAtPosition(Channels(), channel, k);
    }

    method Link(entry: Entry, prev: Entry?, next: Entry?, ghost k: nat)
      requires Linked() && entry !in entries
      requires k <= |entries| && next == NthOrNull(entries, k) && prev == NthOrNull(entries, k - 1)
      modifies this`head, this`tail, this`entries, entries, entry
      ensures Linked() && entries == old(entries)[..k] + [entry] + old(entries)[k..]
    {
      ghost var was := entries;
      entry.prev := prev;
      entry.next := next;
      if prev != null {
        prev.next := entry;
      } else {
        head := entry;
      }
      if next != null {
        next.prev := entry;
      } else {
        tail := entry;
      }
      assert forall i {:trigger was[i].next} | 0 <= i < |was| ::
          was[i].next == if i == k - 1 then entry else NthOrNull(was, i + 1);
      assert forall i {:trigger was[i].prev} | 0 <= i < |was| ::
          was[i].prev == if i == k then entry else NthOrNull(was, i - 1);
      entries := was[..k] + [entry] + was[k..];
      Relinked(was, entry, k);
    }

    // hdhomerun_channel_list_build_range. A range up to 65535 would never end: the 16-bit counter
    // wraps.
    method BuildRange(channelmap: string, range: Range)
      requires Valid() && range.last < 0xFFFF
      modifies this, repr
      ensures Valid() && fresh(repr - old(repr))
      ensures Channels() == InsertAll(old(Channels()), RangeTo(channelmap, range, range.last + 1))
    {
      hide Valid, Linked, NthOrNull, Values, Insert, RangeChannel;
      ghost var before := Channels();
      var number := range.first;
      assert RangeTo(channelmap, range, number) == [] && InsertAll(before, []) == before;
      while number <= range.last
        invariant range.first <= number
        invariant number <= range.last + 1 || number == range.first
        invariant Valid() && fresh(repr - old(repr))
        invariant Channels() == InsertAll(before, RangeTo(channelmap, range, number))
      {
        hide RangeTo, InsertAll;
        ghost var made := RangeTo(channelmap, range, number);
        RangeOneMore(channelmap, range, number);
        var channel := RangeChannel(channelmap, range, number);
        InsertOneMore(before, made, channel);
        BuildChannel(channel);
        number := number + 1;
      }
    }

    method BuildChannel(channel: Channel)
      requires Valid()
      modifies this, repr
      ensures Valid() && fresh(repr - old(repr))
      ensures Channels() == Insert(old(Channels()), channel)
    {
      hide Valid, Linked, Insert, Values;
      var entry := new Entry(channel);
      BuildInsert(entry);
    }

    // hdhomerun_channel_list_build_ranges
    method BuildRanges(record: Record)
      requires Valid() && forall r | r in record.ranges :: r.last < 0xFFFF
      modifies this, repr
      ensures Valid() && fresh(repr - old(repr))
      ensures Channels() == InsertAll(old(Channels()), RangesChannels(record.channelmap, record.ranges))
    {
      ghost var before := Channels();
      ghost var all := RangesChannels(record.channelmap, record.ranges);
      ghost var done: seq<Channel> := [];
      var i := 0;
      assert [] + all == all && InsertAll(before, []) == before;
      while i < |record.ranges| && record.ranges[i].frequency != 0
        invariant 0 <= i <= |record.ranges|
        invariant Valid() && fresh(repr - old(repr))
        invariant Channels() == InsertAll(before, done)
        invariant done + RangesChannels(record.channelmap, record.ranges[i..]) == all
      {
        hide Valid, RangeTo, InsertAll, Values;
        var r := record.ranges[i];
        BuildRange(record.channelmap, r);
        ghost var more := RangeTo(record.channelmap, r, r.last + 1);
        InsertAllAppend(before, done, more);
        RangesStep(record.channelmap, record.ranges, i, done);
        done := done + more;
        i := i + 1;
      }
      assert done == all;
    }

    // ---------------------------------------------------------------- lookups

    method TotalCount() returns (count: nat)
      requires Valid()
      ensures count == |Channels()|
    {
      count := 0;
      var entry := head;
      while entry != null
        invariant count <= |entries| && entry == NthOrNull(entries, count)
        decreases |entries| - count
      {
        count := count + 1;
        entry := entry.next;
      }
    }

    method FrequencyCount() returns (count: nat)
      requires Valid()
      ensures count == CountChanges(Channels(), 0)
    {
      count := 0;
      var lastFrequency: uint32 := 0;
      ghost var i := 0;
      var entry := head;
      assert Channels()[0..] == Channels();
      while entry != null
        invariant 0 <= i <= |entries| && entry == NthOrNull(entries, i)
        invariant count + CountChanges(Channels()[i..], lastFrequency) == CountChanges(Channels(), 0)
        decreases |entries| - i
      {
        assert Channels()[i..][1..] == Channels()[i + 1..];
        if entry.channel.frequency != lastFrequency {
          lastFrequency := entry.channel.frequency;
          count := count + 1;
        }
        entry := entry.next;
        i := i + 1;
      }
    }

    method NumberToFrequency(number: uint16) returns (frequency: uint32)
      requires Valid()
      ensures frequency == FrequencyOf(Channels(), number)
    {
      ghost var i := 0;
      var entry := head;
      assert Channels()[0..] == Channels();
      while entry != null
        invariant 0 <= i <= |entries| && entry == NthOrNull(entries, i)
        invariant FrequencyOf(Channels()[i..], number) == FrequencyOf(Channels(), number)
        decreases |entries| - i
      {
        if entry.channel.number == number {
          return entry.channel.frequency;
        }
        assert Channels()[i..][1..] == Channels()[i + 1..];
        entry := entry.next;
        i := i + 1;
      }
      return 0;
    }

    // The walk stops at the first higher frequency; on an ordered list that misses nothing.
    method FrequencyToNumber(frequency: uint32) returns (number: uint16)
      requires Valid() && Sorted(Channels())
      ensures number == NumberAt(Channels(), RoundNormal(frequency))
    {
      var f := RoundNormal(frequency);
      ghost var i := 0;
      var entry := head;
      assert Channels()[0..] == Channels();
      while entry != null
        invariant 0 <= i <= |entries| && entry == NthOrNull(entries, i)
        invariant NumberAt(Channels()[i..], f) == NumberAt(Channels(), f)
        decreases |entries| - i
      {
        if entry.channel.frequency == f {
          return entry.channel.number;
        }
        if entry.channel.frequency > f {
          NumberAtAbsent(Channels()[i..], f);
          return 0;
        }
        assert Channels()[i..][1..] == Channels()[i + 1..];
        entry := entry.next;
        i := i + 1;
      }
      return 0;
    }
  }

  lemma RangesStep(channelmap: string, ranges: seq<Range>, i: nat, done: seq<Channel>)
    requires i < |ranges| && ranges[i].frequency != 0
    ensures done + RangesChannels(channelmap, ranges[i..])
         == done + RangeTo(channelmap, ranges[i], ranges[i].last + 1) + RangesChannels(channelmap, ranges[i + 1..])
  {
    hide RangeTo;
    assert ranges[i..][1..] == ranges[i + 1..];
  }

  lemma TableStep(channelmap: string, table: seq<Record>, i: nat, done: seq<Channel>)
    requires i < |table|
    ensures Contains(channelmap, table[i].channelmap) ==>
            done + TableChannels(channelmap, table[i..])
              == done + RangesChannels(table[i].channelmap, table[i].ranges) + TableChannels(channelmap, table[i + 1..])
    ensures !Contains(channelmap, table[i].channelmap) ==>
            TableChannels(channelmap, table[i..]) == TableChannels(channelmap, table[i + 1..])
  {
    hide RangesChannels, Contains;
    assert table[i..][1..] == table[i + 1..];
  }

  lemma RangeOneMore(channelmap: string, r: Range, number: uint16)
    requires r.first <= number
    ensures RangeTo(channelmap, r, number + 1) == RangeTo(channelmap, r, number) + [RangeChannel(channelmap, r, number)]
  {
  }

  lemma InsertOneMore(s: seq<Channel>, cs: seq<Channel>, c: Channel)
    ensures InsertAll(s, cs + [c]) == Insert(InsertAll(s, cs), c)
  {
    InsertAllAppend(s, cs, [c]);
    var t := InsertAll(s, cs);
    assert InsertAll(t, [c]) == InsertAll(Insert(t, c), []);
  }

  // hdhomerun_channel_list_create over any table.
  method CreateList(channelmap: string, table: seq<Record>) returns (list: ChannelList?)
    requires forall record, r | record in table && r in record.ranges :: r.last < 0xFFFF
    ensures list == null <==> TableChannels(channelmap, table) == []
    ensures list != null ==> fresh(list) && list.Valid() && fresh(list.repr)
    ensures list != null ==> list.Channels() == InsertAll([], TableChannels(channelmap, table))
  {
    var l := new ChannelList();
    ghost var all := TableChannels(channelmap, table);
    ghost var done: seq<Channel> := [];
    var i := 0;
    assert table[0..] == table && [] + all == all;
    while i < |table|
      invariant 0 <= i <= |table|
      invariant fresh(l) && l.Valid() && fresh(l.repr)
      invariant l.Channels() == InsertAll([], done)
      invariant done + TableChannels(channelmap, table[i..]) == all
    {
      hide RangesChannels, Contains, TableChannels, InsertAll, Values;
      var record := table[i];
      TableStep(channelmap, table, i, done);
      if Contains(channelmap, record.channelmap) {
        l.BuildRanges(record);
        InsertAllAppend([], done, RangesChannels(record.channelmap, record.ranges));
        done := done + RangesChannels(record.channelmap, record.ranges);
      }
      i := i + 1;
    }
    assert done == all;
    assert |l.entries| == |all|;
    if l.head == null {
      return null;
    }
    return l;
  }

  function NthOrNull(s: seq<Entry>, i: int): Entry? {
    if 0 <= i < |s| then s[i] else null
  }

  lemma Relinked(was: seq<Entry>, entry: Entry, k: nat)
    requires k <= |was| && entry !in was
    requires forall i {:trigger was[i].next} | 0 <= i < |was| ::
        was[i].next == if i == k - 1 then entry else NthOrNull(was, i + 1)
    requires forall i {:trigger was[i].prev} | 0 <= i < |was| ::
        was[i].prev == if i == k then entry else NthOrNull(was, i - 1)
    requires entry.next == NthOrNull(was, k) && entry.prev == NthOrNull(was, k - 1)
    ensures var now := was[..k] + [entry] + was[k..];
            && (forall i {:trigger now[i].next} | 0 <= i < |now| :: now[i].next == NthOrNull(now, i + 1))
            && (forall i {:trigger now[i].prev} | 0 <= i < |now| :: now[i].prev == NthOrNull(now, i - 1))
  {
    var now := was[..k] + [entry] + was[k..];
    Spliced(was, entry, k);
    forall i | 0 <= i < |now|
      ensures now[i].next == NthOrNull(now, i + 1) && now[i].prev == NthOrNull(now, i - 1)
    {
      if i < k {
        assert now[i] == was[i];
      } else if i > k {
        assert now[i] == was[i - 1];
      }
    }
  }

  lemma {:induction false} InsertAtPosition(s: seq<Channel>, c: Channel, k: nat)
    requires k <= |s|
    requires forall i | 0 <= i < k :: s[i].frequency <= c.frequency
    requires k < |s| ==> s[k].frequency > c.frequency
    ensures Insert(s, c) == s[..k] + [c] + s[k..]
    decreases |s|
  {
    if k > 0 {
      InsertAtPosition(s[1..], c, k - 1);
      assert s[1..][..k - 1] == s[..k][1..] && s[1..][k - 1..] == s[k..];
      assert s[..k] == [s[0]] + s[..k][1..];
    } else {
      assert s[..0] + [c] + s[0..] == [c] + s;
    }
  }
}
