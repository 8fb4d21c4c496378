// Collecting discovery replies into the caller's list.
module DeviceList {
  import opened Bytes

  const WILDCARD: uint32 := 0xFFFF_FFFF

  // A reply as recorded; two are the same when all of it is.
  datatype Device = Device(ip: uint32, deviceType: uint32, deviceId: uint32, tunerCount: byte, legacy: bool,
                           auth: string, baseUrl: string)

  const BLANK := Device(0, 0, 0, 0, false, "", "")

  // One poll of the sockets. An attempt ends with its polls: the next one would be quiet with the
  // time up.
  datatype Poll = Reply(device: Device) | Quiet
  datatype Attempt = Attempt(sent: bool, polls: seq<Poll>)

  datatype Filter = Filter(deviceType: uint32, deviceId: uint32) {
    predicate Accepts(d: Device) {
      && (deviceType == WILDCARD || d.deviceType == deviceType)
      && (deviceId == WILDCARD || d.deviceId == deviceId)
    }
  }

  // The replies that pass the filter, as they came.
  function Matching(f: Filter, polls: seq<Poll>): seq<Device> {
    if polls == [] then []
    else
      var last := polls[|polls| - 1];
      Matching(f, polls[..|polls| - 1]) + if last.Reply? && f.Accepts(last.device) then [last.device] else []
  }

  // The first occurrence of each.
  function Distinct(s: seq<Device>): (r: seq<Device>)
    ensures |r| <= |s|
  {
    if s == [] then []
    else
      var before := Distinct(s[..|s| - 1]);
      if s[|s| - 1] in before then before else before + [s[|s| - 1]]
  }

  lemma {:induction false} MatchingMeaning(f: Filter, polls: seq<Poll>, d: Device)
    ensures d in Matching(f, polls) <==> Reply(d) in polls && f.Accepts(d)
  {
    if polls != [] {
      MatchingMeaning(f, polls[..|polls| - 1], d);
    }
  }

  lemma {:induction false} DistinctMeaning(s: seq<Device>)
    ensures forall d :: d in Distinct(s) <==> d in s
    ensures forall i, j | 0 <= i < j < |Distinct(s)| :: Distinct(s)[i] != Distinct(s)[j]
  {
    if s != [] {
      DistinctMeaning(s[..|s| - 1]);
      assert s == s[..|s| - 1] + [s[|s| - 1]];
    }
  }

  lemma {:induction false} DistinctExtends(a: seq<Device>, b: seq<Device>)
    ensures Distinct(a) <= Distinct(a + b)
    decreases |b|
  {
    if b == [] {
      assert a + b == a;
    } else {
      var c := b[..|b| - 1];
      DistinctExtends(a, c);
      assert (a + b)[..|a + b| - 1] == a + c;
    }
  }

  lemma OneMoreReply(f: Filter, before: seq<Device>, polls: seq<Poll>, k: nat)
    requires k < |polls|
    ensures var was, now := before + Matching(f, polls[..k]), before + Matching(f, polls[..k + 1]);
            && (polls[k].Quiet? || !f.Accepts(polls[k].device) ==> now == was)
            && (polls[k].Reply? && f.Accepts(polls[k].device) ==>
                  Distinct(now)
                    == Distinct(was) + if polls[k].device in Distinct(was) then [] else [polls[k].device])
  {
    var was, now := before + Matching(f, polls[..k]), before + Matching(f, polls[..k + 1]);
    assert polls[..k + 1][..k] == polls[..k];
    if polls[k].Reply? && f.Accepts(polls[k].device) {
      assert now == was + [polls[k].device];
      assert now[..|now| - 1] == was;
    }
  }

  // hdhomerun_discover_find_in_list
  method FindInList(list: array<Device>, count: nat, lookup: Device) returns (found: bool)
    requires count <= list.Length
    ensures found <==> lookup in list[..count]
  {
    for index := 0 to count
      invariant lookup !in list[..index]
    {
      if list[index] == lookup {
        return true;
      }
    }
    return false;
  }

  // The inner loop of hdhomerun_discover_find_devices_v2: each poll writes the slot after the
  // devices found so far, and a reply is kept there if it passes the filter and is new.
  method Collect(list: array<Device>, have: nat, most: nat, f: Filter, polls: seq<Poll>, ghost before: seq<Device>)
    returns (count: nat)
    requires have < most <= list.Length && list[..have] == Distinct(before)
    modifies list
    ensures forall i | most <= i < list.Length :: list[i] == old(list[i])
    ensures var all := Distinct(before + Matching(f, polls));
            && (count < most ==> list[..count] == all)
            && (count >= most ==> count == most <= |all| && list[..count] == all[..most])
  {
    hide Matching, Distinct;
    count := have;
    var k := 0;
    NoReplies(f, before);
    while k < |polls|
      invariant 0 <= k <= |polls| && count < most
      invariant list[..count] == Distinct(before + Matching(f, polls[..k]))
      invariant forall i | most <= i < list.Length :: list[i] == old(list[i])
    {
      OneMoreReply(f, before, polls, k);
      ghost var found := list[..count];
      list[count] := BLANK;
      var poll := polls[k];
      k := k + 1;
      if poll.Quiet? {
        assert list[..count] == found;
        continue;
      }
      list[count] := poll.device;
      assert list[..count] == found;
      if !f.Accepts(poll.device) {
        continue;
      }
      var known := FindInList(list, count, poll.device);
      if known {
        continue;
      }
      assert list[..count + 1] == found + [poll.device];
      count := count + 1;
      if count >= most {
        TheRest(f, before, polls, k);
        return;
      }
    }
    assert polls[..k] == polls;
    list[count] := BLANK;
  }

  lemma NoReplies(f: Filter, before: seq<Device>)
    ensures before + Matching(f, []) == before
  {
  }

  lemma {:induction false} MatchingAppend(f: Filter, a: seq<Poll>, b: seq<Poll>)
    ensures Matching(f, a + b) == Matching(f, a) + Matching(f, b)
    decreases |b|
  {
    if b == [] {
      assert a + b == a;
    } else {
      var c := b[..|b| - 1];
      MatchingAppend(f, a, c);
      assert (a + b)[..|a + b| - 1] == a + c;
      assert (a + b)[|a + b| - 1] == b[|b| - 1];
    }
  }

  lemma TheRest(f: Filter, before: seq<Device>, polls: seq<Poll>, k: nat)
    requires k <= |polls|
    ensures Distinct(before + Matching(f, polls[..k])) <= Distinct(before + Matching(f, polls))
  {
    hide Matching, Distinct;
    assert polls[..k] + polls[k..] == polls;
    MatchingAppend(f, polls[..k], polls[k..]);
    DistinctExtends(before + Matching(f, polls[..k]), Matching(f, polls[k..]));
    assert before + Matching(f, polls) == (before + Matching(f, polls[..k])) + Matching(f, polls[k..]);
  }

  // What the two attempts bring, and what is reported of it.
  function Found(f: Filter, first: Attempt, second: Attempt): seq<Device> {
    Distinct(Matching(f, first.polls + second.polls))
  }

  // The limit is only looked at when a device was added: at least one is kept, whatever the limit.
  function AtLeastOne(maxCount: int): (most: nat)
    ensures most >= 1 && most >= maxCount && (most == 1 || most == maxCount)
  {
    if maxCount < 1 then 1 else maxCount
  }

  // hdhomerun_discover_find_devices_v2, after the sockets were detected.
  method FindDevices(list: array<Device>, maxCount: int, f: Filter, first: Attempt, second: Attempt)
    returns (count: int)
    requires AtLeastOne(maxCount) <= list.Length
    modifies list
    ensures forall i | AtLeastOne(maxCount) <= i < list.Length :: list[i] == old(list[i])
    ensures var cut := |Distinct(Matching(f, first.polls))| >= AtLeastOne(maxCount);
            count == -1 <==> !first.sent || (!cut && !second.sent)
    ensures count != -1 ==>
              var all := Found(f, first, second);
              && 0 <= count <= AtLeastOne(maxCount) && count <= |all| && list[..count] == all[..count]
              && (count < AtLeastOne(maxCount) ==> count == |all|)
  {
    hide Matching, Distinct;
    var most := AtLeastOne(maxCount);
    if !first.sent {
      return -1;
    }
    MatchingAppend(f, first.polls, second.polls);
    DistinctExtends(Matching(f, first.polls), Matching(f, second.polls));
    NothingDistinct();
    assert [] + Matching(f, first.polls) == Matching(f, first.polls);
    var n := Collect(list, 0, most, f, first.polls, []);
    if n >= most {
      return n;
    }
    if !second.sent {
      return -1;
    }
    var m := Collect(list, n, most, f, second.polls, Matching(f, first.polls));
    return m;
  }

  lemma NothingDistinct()
    ensures Distinct([]) == []
  {
  }

  // The type asked for and the identifier asked for; all ones asks for any.
  lemma AcceptsMeaning(f: Filter, d: Device)
    ensures f.Accepts(d)
       <==> (f.deviceType == 0xFFFF_FFFF || d.deviceType == f.deviceType)
            && (f.deviceId == 0xFFFF_FFFF || d.deviceId == f.deviceId)
  {
  }

  // The records stand in the order in which each first arrived.
  lemma {:induction false} FirstComeFirst(f: Filter, polls: seq<Poll>)
    ensures exists at: seq<nat> :: Arrivals(Distinct(Matching(f, polls)), polls, at)
  {
    hide Matching, Distinct, Arrivals;
    if polls == [] {
      NoArrivals(f);
    } else {
      var n := |polls| - 1;
      FirstComeFirst(f, polls[..n]);
      var all, now := Distinct(Matching(f, polls[..n])), Distinct(Matching(f, polls));
      var at: seq<nat> :| Arrivals(all, polls[..n], at);
      OneMoreReply(f, [], polls, n);
      assert polls[..n + 1] == polls;
      assert [] + Matching(f, polls[..n]) == Matching(f, polls[..n]) && [] + Matching(f, polls) == Matching(f, polls);
      if now == all {
        ArrivalsStay(all, polls, at);
      } else {
        var d := polls[n].device;
        MatchingMeaning(f, polls[..n], d);
        DistinctMeaning(Matching(f, polls[..n]));
        ArrivalsGrow(all, polls, at, d);
      }
    }
  }

  lemma NoArrivals(f: Filter)
    ensures Arrivals(Distinct(Matching(f, [])), [], [])
  {
  }

  lemma ArrivalsStay(all: seq<Device>, polls: seq<Poll>, at: seq<nat>)
    requires polls != [] && Arrivals(all, polls[..|polls| - 1], at)
    ensures Arrivals(all, polls, at)
  {
    var before := polls[..|polls| - 1];
    assert forall i | 0 <= i < |at| :: before[at[i]] == polls[at[i]];
    assert forall j | 0 <= j < |before| :: before[j] == polls[j];
  }

  lemma ArrivalsGrow(all: seq<Device>, polls: seq<Poll>, at: seq<nat>, d: Device)
    requires polls != [] && Arrivals(all, polls[..|polls| - 1], at)
    requires polls[|polls| - 1] == Reply(d) && Reply(d) !in polls[..|polls| - 1]
    ensures Arrivals(all + [d], polls, at + [|polls| - 1])
  {
    ArrivalsStay(all, polls, at);
    assert forall j | 0 <= j < |polls| - 1 :: polls[..|polls| - 1][j] == polls[j];
  }

  ghost predicate Arrivals(all: seq<Device>, polls: seq<Poll>, at: seq<nat>) {
    && |at| == |all| && (forall i, j | 0 <= i < j < |at| :: at[i] < at[j])
    && (forall i | 0 <= i < |at| :: at[i] < |polls| && polls[at[i]] == Reply(all[i]))
    && (forall i, j | 0 <= i < |at| && 0 <= j < at[i] :: polls[j] != Reply(all[i]))
  }

  // What a list so filled holds: pairwise different records, all replies of the type and identifier
  // asked for, and on a return below the limit every reply that is.
  lemma ListIsSound(f: Filter, first: Attempt, second: Attempt, count: nat)
    requires count <= |Found(f, first, second)|
    ensures var all := Found(f, first, second);
            && (forall i, j | 0 <= i < j < count :: all[i] != all[j])
            && (forall i | 0 <= i < count ::
                  && Reply(all[i]) in first.polls + second.polls
                  && (f.deviceType == 0xFFFF_FFFF || all[i].deviceType == f.deviceType)
                  && (f.deviceId == 0xFFFF_FFFF || all[i].deviceId == f.deviceId))
            && (count == |all| ==>
                  forall d | Reply(d) in first.polls + second.polls
                             && (f.deviceType == 0xFFFF_FFFF || d.deviceType == f.deviceType)
                             && (f.deviceId == 0xFFFF_FFFF || d.deviceId == f.deviceId) ::
                    d in all[..count])
  {
    hide Matching, Distinct;
    var polls := first.polls + second.polls;
    DistinctMeaning(Matching(f, polls));
    forall d: Device
      ensures d in Matching(f, polls) <==> Reply(d) in polls && f.Accepts(d)
    {
      MatchingMeaning(f, polls, d);
    }
    var all := Found(f, first, second);
    assert forall i | 0 <= i < count :: all[i] in all;
    assert count == |all| ==> all[..count] == all;
  }
}
