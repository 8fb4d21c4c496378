// The discovery client's sockets: slot 0 routes anywhere, each further slot is bound to a local
// address. A detection marks, extends and compacts the table in place.
module SocketTable {
  import opened Bytes

  const MAX_SOCK_COUNT: nat := 16

  // What is reported of one local interface.
  datatype Local = Local(ip: uint32, mask: uint32)

  datatype Slot = Slot(sock: nat, detected: bool, local: Local)

  // What the system makes of a request for a bound socket.
  datatype Outcome = NoSocket | NotBound | Bound

  // ---------------------------------------------------------------- tables as sequences

  function Sockets(t: seq<Slot>): set<nat> {
    set i | 0 <= i < |t| :: t[i].sock
  }

  ghost predicate Present(t: seq<Slot>, local: Local) {
    exists i :: 1 <= i < |t| && t[i].local == local
  }

  // No socket in two slots, and no address in two of the slots after the first.
  ghost predicate WellFormed(t: seq<Slot>) {
    && 1 <= |t| <= MAX_SOCK_COUNT
    && (forall i, j | 0 <= i < j < |t| :: t[i].sock != t[j].sock)
    && (forall i, j | 1 <= i < j < |t| :: t[i].local != t[j].local)
  }

  // Slot 0 and the detected ones of the rest.
  function Kept(t: seq<Slot>): (r: seq<Slot>)
    requires t != []
    ensures r != [] && |r| <= |t| && r[0] == t[0]
  {
    var n := |t| - 1;
    if n == 0 then t else Kept(t[..n]) + if t[n].detected then [t[n]] else []
  }

  // Slot 0 and the slots of the addresses now reported, in their old order.
  function Surviving(t: seq<Slot>, reported: seq<Local>): (r: seq<Slot>)
    requires t != []
    ensures r != [] && r[0] == t[0]
  {
    var n := |t| - 1;
    if n == 0 then t
    else Surviving(t[..n], reported) + if t[n].local in reported then [t[n].(detected := true)] else []
  }

  // The table `now` after the first addresses of `reported` were added to `was`.
  ghost predicate Added(was: seq<Slot>, now: seq<Slot>, reported: seq<Local>, outcomes: seq<Outcome>)
    requires |reported| <= |outcomes|
  {
    && 1 <= |was| <= |now| && now[0] == was[0]
    && (forall i | 1 <= i < |was| :: now[i] == was[i].(detected := was[i].local in reported))
    && (forall i | |was| <= i < |now| :: now[i].detected && now[i].local in reported)
    && (forall k | 0 <= k < |reported| && outcomes[k].Bound? ::
          Present(now, reported[k]) || |now| == MAX_SOCK_COUNT)
  }

  // One detection: the table `was` becomes `now`, with the slots `fresh` at its end.
  ghost predicate Detection(was: seq<Slot>, now: seq<Slot>, reported: seq<Local>, outcomes: seq<Outcome>,
                            more: seq<Slot>)
    requires |reported| <= |outcomes| && was != []
  {
    && now == Surviving(was, reported) + more
    && (forall m | m in more :: m.detected && m.local in reported && !Present(was, m.local))
    && (forall k | 0 <= k < |reported| && outcomes[k].Bound? ::
          Present(now, reported[k]) || |was| + |more| == MAX_SOCK_COUNT)
  }

  lemma {:induction false} KeptIsSurviving(was: seq<Slot>, now: seq<Slot>, reported: seq<Local>, outcomes: seq<Outcome>)
    requires |reported| <= |outcomes| && Added(was, now, reported, outcomes)
    ensures Kept(now) == Surviving(was, reported) + now[|was|..]
    decreases |now|
  {
    var n := |now| - 1;
    if n >= |was| {
      KeptOfPrefix(was, now, reported);
    } else if n > 0 {
      KeptOfMarked(was, now, reported);
      assert now[|was|..] == [];
    }
  }

  lemma {:induction false} KeptOfMarked(was: seq<Slot>, now: seq<Slot>, reported: seq<Local>)
    requires 1 <= |was| == |now| && now[0] == was[0]
    requires forall i | 1 <= i < |was| :: now[i] == was[i].(detected := was[i].local in reported)
    ensures Kept(now) == Surviving(was, reported)
    decreases |now|
  {
    var n := |now| - 1;
    if n > 0 {
      KeptOfMarked(was[..n], now[..n], reported);
    }
  }

  lemma {:induction false} KeptOfPrefix(was: seq<Slot>, now: seq<Slot>, reported: seq<Local>)
    requires 1 <= |was| <= |now| && now[0] == was[0]
    requires forall i | 1 <= i < |was| :: now[i] == was[i].(detected := was[i].local in reported)
    requires forall i | |was| <= i < |now| :: now[i].detected
    ensures Kept(now) == Surviving(was, reported) + now[|was|..]
    decreases |now|
  {
    var n := |now| - 1;
    if |now| == |was| {
      KeptOfMarked(was, now, reported);
    } else {
      KeptOfPrefix(was, now[..n], reported);
      assert now[|was|..] == now[..n][|was|..] + [now[n]];
    }
  }

  // Which slots survive: no others, all of them, and nothing else about them changes.
  lemma {:induction false} KeptMeaning(t: seq<Slot>, slot: Slot)
    requires t != []
    ensures slot in Kept(t)[1..] <==> slot.detected && slot in t[1..]
  {
    var n := |t| - 1;
    if n > 0 {
      KeptMeaning(t[..n], slot);
      assert t[1..] == t[..n][1..] + [t[n]];
      var more := if t[n].detected then [t[n]] else [];
      assert (Kept(t[..n]) + more)[1..] == Kept(t[..n])[1..] + more;
    }
  }

  lemma {:induction false} KeptIsWellFormed(t: seq<Slot>)
    requires WellFormed(t)
    ensures WellFormed(Kept(t))
  {
    var n := |t| - 1;
    if n > 0 {
      KeptIsWellFormed(t[..n]);
      var k := Kept(t[..n]);
      forall i | 0 <= i < |k|
        ensures k[i].sock != t[n].sock && (i > 0 ==> k[i].local != t[n].local)
      {
        if i > 0 {
          KeptMeaning(t[..n], k[i]);
          assert k[i] in k[1..];
          assert k[i] in t[..n][1..];
        }
      }
    }
  }

  lemma PresentIn(t: seq<Slot>, local: Local)
    requires t != []
    ensures Present(t, local) <==> exists s :: s in t[1..] && s.local == local
  {
    if Present(t, local) {
      var i :| 1 <= i < |t| && t[i].local == local;
      assert t[1..][i - 1] == t[i];
    }
    if exists s :: s in t[1..] && s.local == local {
      var i :| 0 <= i < |t[1..]| && t[1..][i].local == local;
      assert t[i + 1].local == local;
    }
  }

  // Compacting after the additions is the detection as a whole.
  lemma Detects(was: seq<Slot>, now: seq<Slot>, reported: seq<Local>, outcomes: seq<Outcome>)
    requires |reported| <= |outcomes| && Added(was, now, reported, outcomes) && WellFormed(now)
    ensures Detection(was, Kept(now), reported, outcomes, now[|was|..]) && WellFormed(Kept(now))
  {
    hide Kept, Surviving;
    KeptIsSurviving(was, now, reported, outcomes);
    KeptIsWellFormed(now);
    forall k | 0 <= k < |reported| && outcomes[k].Bound? && |now| != MAX_SOCK_COUNT
      ensures Present(Kept(now), reported[k])
    {
      PresentIn(now, reported[k]);
      PresentIn(Kept(now), reported[k]);
      var s :| s in now[1..] && s.local == reported[k];
      assert s.detected;
      KeptMeaning(now, s);
    }
  }

  // ---------------------------------------------------------------- many detections

  // What one detection is told and what it adds.
  datatype Round = Round(reported: seq<Local>, outcomes: seq<Outcome>, more: seq<Slot>)

  ghost predicate Leads(was: seq<Slot>, r: Round, now: seq<Slot>) {
    && WellFormed(was) && WellFormed(now) && |r.reported| <= |r.outcomes|
    && Detection(was, now, r.reported, r.outcomes, r.more)
  }

  // Each round leads from one table to the next.
  ghost predicate Linked(tables: seq<seq<Slot>>, rounds: seq<Round>) {
    && |tables| == |rounds| + 1 && WellFormed(tables[0])
    && forall k | 0 <= k < |rounds| :: Leads(tables[k], rounds[k], tables[k + 1])
  }

  function Both(a: seq<Local>, b: seq<Local>): seq<Local> {
    if a == [] then []
    else
      var n := |a| - 1;
      Both(a[..n], b) + if a[n] in b then [a[n]] else []
  }

  // The addresses that every round reports.
  function Always(rounds: seq<Round>): seq<Local>
    requires rounds != []
  {
    var n := |rounds| - 1;
    if n == 0 then rounds[0].reported else Both(Always(rounds[..n]), rounds[n].reported)
  }

  lemma {:induction false} BothMeaning(a: seq<Local>, b: seq<Local>, local: Local)
    ensures local in Both(a, b) <==> local in a && local in b
  {
    if a != [] {
      BothMeaning(a[..|a| - 1], b, local);
    }
  }

  lemma {:induction false} AlwaysMeaning(rounds: seq<Round>, local: Local)
    requires rounds != []
    ensures local in Always(rounds) <==> forall k | 0 <= k < |rounds| :: local in rounds[k].reported
  {
    var n := |rounds| - 1;
    if n > 0 {
      AlwaysMeaning(rounds[..n], local);
      BothMeaning(Always(rounds[..n]), rounds[n].reported, local);
      assert (forall k | 0 <= k < |rounds| :: local in rounds[k].reported)
          == ((forall k | 0 <= k < n :: local in rounds[..n][k].reported) && local in rounds[n].reported);
    }
  }

  lemma {:induction false} SurvivingTwice(t: seq<Slot>, a: seq<Local>, b: seq<Local>)
    requires t != []
    ensures Surviving(Surviving(t, a), b) == Surviving(t, Both(a, b))
    decreases |t|
  {
    var n := |t| - 1;
    if n > 0 {
      SurvivingTwice(t[..n], a, b);
      BothMeaning(a, b, t[n].local);
      var s, slot := Surviving(t[..n], a), t[n].(detected := true);
      if t[n].local in a {
        SurvivingAppend(s, slot, b);
        assert Surviving(t, a) == s + [slot];
      } else {
        assert Surviving(t, a) == s;
      }
    }
  }

  lemma SurvivingAppend(t: seq<Slot>, slot: Slot, reported: seq<Local>)
    requires t != []
    ensures Surviving(t + [slot], reported)
         == Surviving(t, reported) + if slot.local in reported then [slot.(detected := true)] else []
  {
    assert (t + [slot])[..|t|] == t;
  }

  lemma {:induction false} SurvivingPrefix(t: seq<Slot>, more: seq<Slot>, reported: seq<Local>)
    requires t != []
    ensures Surviving(t, reported) <= Surviving(t + more, reported)
    decreases |more|
  {
    if more == [] {
      assert t + more == t;
    } else {
      var n := |more| - 1;
      SurvivingPrefix(t, more[..n], reported);
      SurvivingAppend(t + more[..n], more[n], reported);
      assert t + more == (t + more[..n]) + [more[n]];
    }
  }

  // After any number of detections slot 0 is what it was, the other slots are addresses of the latest
  // report, and the table begins with those of the first table whose address every round reported, in
  // their old order and with their old sockets.
  lemma {:induction false} ManyDetections(tables: seq<seq<Slot>>, rounds: seq<Round>)
    requires Linked(tables, rounds) && rounds != []
    ensures var last := tables[|rounds|];
            && WellFormed(last) && last[0] == tables[0][0]
            && (forall i | 1 <= i < |last| :: last[i].local in rounds[|rounds| - 1].reported)
            && Surviving(tables[0], Always(rounds)) <= last
    decreases |rounds|
  {
    hide Surviving, WellFormed, Present;
    var n := |rounds| - 1;
    var r := rounds[n];
    assert Leads(tables[n], r, tables[n + 1]);
    NotEmpty(tables[n]);
    SurvivingIsReported(tables[n], r.reported);
    if n > 0 {
      assert forall k | 0 <= k < n :: tables[..n + 1][k] == tables[k] && rounds[..n][k] == rounds[k];
      NotEmpty(tables[0]);
      ManyDetections(tables[..n + 1], rounds[..n]);
      var kept := Surviving(tables[0], Always(rounds[..n]));
      SurvivingPrefix(kept, tables[n][|kept|..], r.reported);
      assert tables[n] == kept + tables[n][|kept|..];
      SurvivingTwice(tables[0], Always(rounds[..n]), r.reported);
    }
  }

  lemma NotEmpty(t: seq<Slot>)
    requires WellFormed(t)
    ensures t != []
  {
  }

  lemma {:induction false} SurvivingIsReported(t: seq<Slot>, reported: seq<Local>)
    requires t != []
    ensures forall i | 1 <= i < |Surviving(t, reported)| :: Surviving(t, reported)[i].local in reported
  {
    if |t| > 1 {
      SurvivingIsReported(t[..|t| - 1], reported);
    }
  }

  // ---------------------------------------------------------------- the table in place

  class Discover {
    const socks: array<Slot>
    var sockCount: nat
    // The system's side: how many sockets it has handed out, and which of them are open.
    var created: nat
    ghost var open: set<nat>

    ghost predicate Valid()
      reads this, socks
    {
      Sized() && WellFormed(Table()) && Owned()
    }

    ghost predicate Sized()
      reads `sockCount
    {
      socks.Length == MAX_SOCK_COUNT && sockCount <= MAX_SOCK_COUNT
    }

    // The sockets in the table are the open ones: none is leaked.
    ghost predicate Owned()
      reads this, socks
      requires Sized()
    {
      open == Sockets(Table()) && forall s | s in open :: s < created
    }

    ghost function Table(): seq<Slot>
      reads `sockCount, socks
      requires Sized()
    {
      socks[..sockCount]
    }

    constructor ()
      ensures Sized() && sockCount == created == 0 && Owned() && fresh(socks)
    {
      socks := new Slot[MAX_SOCK_COUNT](_ => Slot(0, false, Local(0, 0)));
      sockCount, created, open := 0, 0, {};
    }

    method CreateUdp() returns (sock: nat)
      modifies `created, `open
      ensures sock == old(created) && created == old(created) + 1 && open == old(open) + {sock}
    {
      sock := created;
      created := created + 1;
      open := open + {sock};
    }

    // A socket is closed once: it must be open.
    method DestroySock(sock: nat)
      requires sock in open
      modifies `open
      ensures open == old(open) - {sock}
    {
      open := open - {sock};
    }

    // The search of hdhomerun_discover_sock_add, which starts behind slot 0.
    method Find(local: Local) returns (i: nat)
      requires Sized()
      ensures i < sockCount ==> 1 <= i && socks[i].local == local
      ensures i >= sockCount ==> !Present(Table(), local)
    {
      i := 1;
      while i < sockCount
        invariant forall j | 1 <= j < i && j < sockCount :: socks[j].local != local
      {
        if socks[i].local == local {
          return;
        }
        i := i + 1;
      }
    }

    // hdhomerun_discover_sock_add
    method SockAdd(local: Local, outcome: Outcome) returns (ok: bool)
      requires Sized() && Owned()
      modifies this, socks
      ensures Sized() && Owned()
      ensures ok <==> Present(old(Table()), local) || (old(sockCount) < MAX_SOCK_COUNT && outcome.Bound?)
      ensures !ok ==> Table() == old(Table())
      ensures ok && !Present(old(Table()), local) ==>
                Table() == old(Table()) + [Slot(old(created), true, local)]
      ensures ok && Present(old(Table()), local) ==>
                exists i :: 1 <= i < old(sockCount) && old(Table())[i].local == local
                            && Table() == old(Table())[i := old(Table())[i].(detected := true)]
    {
      ghost var was := Table();
      var i := Find(local);
      if i < sockCount {
        socks[i] := socks[i].(detected := true);
        assert Table() == was[i := was[i].(detected := true)];
        SameSockets(was, Table());
        return true;
      }
      if sockCount >= MAX_SOCK_COUNT {
        return false;
      }
      if outcome.NoSocket? {
        return false;
      }
      var sock := CreateUdp();
      if outcome.NotBound? {
        DestroySock(sock);
        return false;
      }
      socks[sockCount] := Slot(sock, true, local);
      sockCount := sockCount + 1;
      assert Table() == was + [Slot(sock, true, local)];
      OneMoreSocket(was, Slot(sock, true, local));
      return true;
    }

    // The first loop of hdhomerun_discover_sock_detect.
    method Unmark()
      requires Valid()
      modifies socks
      ensures Valid() && Added(old(Table()), Table(), [], [])
    {
      ghost var was := Table();
      for i := 1 to sockCount
        invariant Sized() && sockCount == |was| && socks[0] == was[0]
        invariant forall j | 1 <= j < i :: socks[j] == was[j].(detected := false)
        invariant forall j | i <= j < sockCount :: socks[j] == was[j]
      {
        socks[i] := socks[i].(detected := false);
      }
      SameSockets(was, Table());
    }

    // The second loop: `was` is the table before the first.
    method AddReported(list: seq<Local>, count: nat, outcomes: seq<Outcome>, ghost was: seq<Slot>)
      requires Valid() && count <= |list| == |outcomes| && Added(was, Table(), [], outcomes)
      modifies this, socks
      ensures Valid() && Added(was, Table(), list[..count], outcomes)
    {
      assert list[..0] == [];
      for index := 0 to count
        invariant Valid() && Added(was, Table(), list[..index], outcomes)
      {
        hide Added, WellFormed, Sockets, Owned;
        ghost var now := Table();
        ghost var handle := created;
        assert forall i | 0 <= i < |now| :: now[i].sock < handle by {
          OwnedBelow();
        }
        var ok := SockAdd(list[index], outcomes[index]);
        AddedOneMore(was, now, Table(), list, index, outcomes, ok, handle);
      }
    }

    lemma OwnedBelow()
      requires Sized() && Owned()
      ensures forall i | 0 <= i < sockCount :: Table()[i].sock < created
    {
      assert forall i | 0 <= i < sockCount :: Table()[i].sock in open;
    }

    // The third loop, with its two pointers into the table.
    method Compact()
      requires Valid()
      modifies this, socks
      ensures Valid() && Table() == Kept(old(Table()))
    {
      hide Compacting, Kept, Valid;
      CompactingStarts();
      ghost var was := Table();
      var src, dst := 1, 1;
      while src < sockCount
        invariant Sized() && src <= sockCount && Compacting(was, src, dst)
      {
        if !socks[src].detected {
          Drop(was, src, dst);
          src := src + 1;
          continue;
        }
        Keep(was, src, dst);
        src := src + 1;
        dst := dst + 1;
      }
      Shrink(was, dst);
    }

    lemma CompactingStarts()
      requires Valid()
      ensures Sized() && 1 <= sockCount && Compacting(Table(), 1, 1)
    {
      NothingKeptYet(Table());
      hide Kept, Sockets, WellFormed;
    }

    method Shrink(ghost was: seq<Slot>, dst: nat)
      requires Compacting(was, sockCount, dst)
      modifies `sockCount
      ensures Valid() && Table() == Kept(was)
    {
      AllKept(was);
      hide Kept, Sockets, WellFormed;
      sockCount := dst;
    }

    // The slots before `src` are compacted into the slots before `dst`, and what was dropped is
    // closed.
    ghost predicate Compacting(was: seq<Slot>, src: nat, dst: nat)
      reads this, socks
    {
      && Sized() && WellFormed(was) && sockCount == |was| && 1 <= dst <= src <= sockCount
      && socks[..dst] == Kept(was[..src]) && socks[src..sockCount] == was[src..]
      && open == Sockets(Kept(was[..src])) + Sockets(was[src..])
      && (forall s | s in open :: s < created)
    }

    method Drop(ghost was: seq<Slot>, src: nat, ghost dst: nat)
      requires src < sockCount && Compacting(was, src, dst) && !socks[src].detected
      modifies `open
      ensures Sized() && Compacting(was, src + 1, dst)
    {
      hide Kept, Sockets, WellFormed;
      KeepOrDrop(was, src);
      FirstOfRest(was, src);
      DestroySock(socks[src].sock);
    }

    method Keep(ghost was: seq<Slot>, src: nat, dst: nat)
      requires src < sockCount && Compacting(was, src, dst) && socks[src].detected
      modifies socks
      ensures Sized() && Compacting(was, src + 1, dst + 1)
    {
      hide Kept, Sockets, WellFormed;
      KeepOrDrop(was, src);
      FirstOfRest(was, src);
      if dst != src {
        socks[dst] := socks[src];
      }
    }

    lemma FirstOfRest(was: seq<Slot>, src: nat)
      requires Sized() && src < sockCount == |was| && socks[src..sockCount] == was[src..]
      ensures socks[src] == was[src] && socks[src + 1..sockCount] == was[src + 1..]
    {
      assert socks[src..sockCount][0] == was[src..][0];
      assert socks[src + 1..sockCount] == socks[src..sockCount][1..];
    }

    lemma NothingKeptYet(t: seq<Slot>)
      requires t != []
      ensures Kept(t[..1]) == t[..1] == [t[0]] && Sockets(Kept(t[..1])) + Sockets(t[1..]) == Sockets(t)
    {
      hide Sockets;
      assert t == t[..1] + t[1..];
      BothSockets(t[..1], t[1..]);
    }

    lemma AllKept(t: seq<Slot>)
      requires WellFormed(t)
      ensures t[..|t|] == t && Sockets(Kept(t[..|t|])) + Sockets(t[|t|..]) == Sockets(Kept(t)) && WellFormed(Kept(t))
    {
      assert t[..|t|] == t && Sockets(t[|t|..]) == {};
      KeptIsWellFormed(t);
    }

    // hdhomerun_discover_sock_detect. The list has room for sixteen entries; `found` is what filling
    // it returned, negative on an error.
    method SockDetect(list: seq<Local>, found: int, outcomes: seq<Outcome>) returns (ghost more: seq<Slot>)
      requires Valid() && |list| == |outcomes| == MAX_SOCK_COUNT
      modifies this, socks
      ensures Valid() && Detection(old(Table()), Table(), list[..Usable(found)], outcomes, more)
    {
      ghost var was := Table();
      Unmark();
      AddReported(list, Usable(found), outcomes, was);
      hide Added, Kept, Detection;
      ghost var now := Table();
      Compact();
      Detects(was, now, list[..Usable(found)], outcomes);
      more := now[|was|..];
    }

    // Any number of detections, one for each search. At the end the table is well formed and its
    // sockets are the open ones, as after every one of them.
    method DetectRepeatedly(lists: seq<seq<Local>>, found: seq<int>, outcomes: seq<seq<Outcome>>)
      returns (ghost tables: seq<seq<Slot>>, ghost rounds: seq<Round>)
      requires Valid() && |lists| == |found| == |outcomes|
      requires forall k | 0 <= k < |lists| :: |lists[k]| == |outcomes[k]| == MAX_SOCK_COUNT
      modifies this, socks
      ensures Valid() && Linked(tables, rounds) && |rounds| == |lists|
      ensures tables[0] == old(Table()) && tables[|rounds|] == Table()
      ensures forall k | 0 <= k < |rounds| :: rounds[k].reported == lists[k][..Usable(found[k])]
      ensures rounds != [] ==> Surviving(old(Table()), Always(rounds)) <= Table() && Table()[0] == old(Table())[0]
    {
      hide Sockets, Detection, WellFormed, Owned;
      tables, rounds := [Table()], [];
      for k := 0 to |lists|
        invariant Valid() && Linked(tables, rounds) && |rounds| == k
        invariant tables[0] == old(Table()) && tables[k] == Table()
        invariant forall j | 0 <= j < k :: rounds[j].reported == lists[j][..Usable(found[j])]
      {
        ghost var more := SockDetect(lists[k], found[k], outcomes[k]);
        ghost var r := Round(lists[k][..Usable(found[k])], outcomes[k], more);
        assert Leads(tables[k], r, Table());
        tables, rounds := tables + [Table()], rounds + [r];
      }
      if rounds != [] {
        ManyDetections(tables, rounds);
      }
    }

    // hdhomerun_discover_destroy: every socket is closed, none twice.
    method Destroy()
      requires Valid()
      modifies `open
      ensures open == {}
    {
      ghost var t := Table();
      assert t[0..] == t;
      for i := 0 to sockCount
        invariant Sized() && Table() == t && open == Sockets(t[i..])
      {
        FirstSocket(t, i);
        DestroySock(socks[i].sock);
      }
    }
  }

  function Usable(found: int): nat {
    if found < 0 then 0 else if found > MAX_SOCK_COUNT then MAX_SOCK_COUNT else found
  }

  // How much of the list counts: nothing after an error, and never more than its sixteen entries.
  lemma UsableReport(list: seq<Local>, found: int)
    requires |list| == 16
    ensures found < 0 ==> list[..Usable(found)] == []
    ensures 0 <= found <= 16 ==> list[..Usable(found)] == list[..found]
    ensures found > 16 ==> list[..Usable(found)] == list
  {
  }

  // hdhomerun_discover_create: the routable socket goes into slot 0.
  method CreateDiscover(outcome: Outcome) returns (ds: Discover?)
    ensures ds != null <==> outcome.Bound?
    ensures ds != null ==> fresh(ds) && fresh(ds.socks) && ds.Valid()
    ensures ds != null ==> ds.Table() == [Slot(0, true, Local(0, 0))]
  {
    var d := new Discover();
    ghost var was := d.Table();
    assert !Present(was, Local(0, 0));
    var ok := d.SockAdd(Local(0, 0), outcome);
    if !ok {
      return null;
    }
    return d;
  }

  lemma AddedOneMore(was: seq<Slot>, now: seq<Slot>, next: seq<Slot>, list: seq<Local>, k: nat,
                     outcomes: seq<Outcome>, ok: bool, handle: nat)
    requires k < |list| <= |outcomes| && Added(was, now, list[..k], outcomes) && WellFormed(now)
    requires forall i | 0 <= i < |now| :: now[i].sock < handle
    requires ok <==> Present(now, list[k]) || (|now| < MAX_SOCK_COUNT && outcomes[k].Bound?)
    requires !ok ==> next == now
    requires ok && !Present(now, list[k]) ==> next == now + [Slot(handle, true, list[k])]
    requires ok && Present(now, list[k]) ==>
               exists i :: 1 <= i < |now| && now[i].local == list[k] && next == now[i := now[i].(detected := true)]
    ensures Added(was, next, list[..k + 1], outcomes) && WellFormed(next)
  {
    assert list[..k + 1] == list[..k] + [list[k]];
    if !ok {
      NotAdded(was, now, list, k, outcomes);
    } else if Present(now, list[k]) {
      var i :| 1 <= i < |now| && now[i].local == list[k] && next == now[i := now[i].(detected := true)];
      AddedAgain(was, now, list, k, outcomes, i);
    } else {
      AddedNew(was, now, list, k, outcomes, handle);
    }
  }

  lemma NotAdded(was: seq<Slot>, now: seq<Slot>, list: seq<Local>, k: nat, outcomes: seq<Outcome>)
    requires k < |list| <= |outcomes| && Added(was, now, list[..k], outcomes)
    requires !Present(now, list[k]) && (|now| >= MAX_SOCK_COUNT || !outcomes[k].Bound?) && |now| <= MAX_SOCK_COUNT
    ensures Added(was, now, list[..k + 1], outcomes)
  {
    assert list[..k + 1] == list[..k] + [list[k]];
    assert forall i | 1 <= i < |now| :: now[i].local != list[k];
  }

  lemma AddedAgain(was: seq<Slot>, now: seq<Slot>, list: seq<Local>, k: nat, outcomes: seq<Outcome>, i: nat)
    requires k < |list| <= |outcomes| && Added(was, now, list[..k], outcomes) && WellFormed(now)
    requires 1 <= i < |now| && now[i].local == list[k]
    ensures var next := now[i := now[i].(detected := true)];
            Added(was, next, list[..k + 1], outcomes) && WellFormed(next)
  {
    var next := now[i := now[i].(detected := true)];
    assert list[..k + 1] == list[..k] + [list[k]];
    assert forall l :: Present(now, l) <==> Present(next, l) by {
      assert forall j | 0 <= j < |now| :: next[j].local == now[j].local;
    }
    assert Present(next, list[k]);
    assert forall j | 1 <= j < |now| && j != i :: now[j].local != list[k];
    hide Present;
  }

  lemma AddedNew(was: seq<Slot>, now: seq<Slot>, list: seq<Local>, k: nat, outcomes: seq<Outcome>, handle: nat)
    requires k < |list| <= |outcomes| && Added(was, now, list[..k], outcomes) && WellFormed(now)
    requires forall i | 0 <= i < |now| :: now[i].sock < handle
    requires |now| < MAX_SOCK_COUNT && !Present(now, list[k])
    ensures var next := now + [Slot(handle, true, list[k])];
            Added(was, next, list[..k + 1], outcomes) && WellFormed(next)
  {
    var next := now + [Slot(handle, true, list[k])];
    assert list[..k + 1] == list[..k] + [list[k]];
    assert next[|now|].local == list[k];
    assert Present(next, list[k]);
    assert forall j | 1 <= j < |now| :: next[j] == now[j] && now[j].local != list[k];
    forall l | Present(now, l)
      ensures Present(next, l)
    {
      var i :| 1 <= i < |now| && now[i].local == l;
      assert next[i].local == l;
    }
  }

  lemma BothSockets(a: seq<Slot>, b: seq<Slot>)
    ensures Sockets(a + b) == Sockets(a) + Sockets(b)
  {
    var c := a + b;
    assert forall i | 0 <= i < |a| :: c[i] == a[i];
    assert forall i | 0 <= i < |b| :: c[|a| + i] == b[i];
    forall s | s in Sockets(a) + Sockets(b)
      ensures s in Sockets(c)
    {
      if s in Sockets(a) {
        var i :| 0 <= i < |a| && a[i].sock == s;
        assert c[i].sock == s;
      } else {
        var i :| 0 <= i < |b| && b[i].sock == s;
        assert c[|a| + i].sock == s;
      }
    }
  }

  lemma FirstSocket(t: seq<Slot>, i: nat)
    requires i < |t| && forall j, k | 0 <= j < k < |t| :: t[j].sock != t[k].sock
    ensures Sockets(t[i..]) == {t[i].sock} + Sockets(t[i + 1..]) && t[i].sock !in Sockets(t[i + 1..])
  {
    assert t[i..] == [t[i]] + t[i + 1..];
    BothSockets([t[i]], t[i + 1..]);
    assert [t[i]][0].sock in Sockets([t[i]]);
  }

  lemma {:induction false} KeptSockets(t: seq<Slot>)
    requires t != []
    ensures Sockets(Kept(t)) <= Sockets(t)
  {
    var n := |t| - 1;
    if n > 0 {
      KeptSockets(t[..n]);
      OneMoreSocket(t[..n], t[n]);
      OneMoreSocket(Kept(t[..n]), t[n]);
      assert t[..n] + [t[n]] == t;
    }
  }

  // One step of the compaction, and what it closes.
  lemma KeepOrDrop(t: seq<Slot>, i: nat)
    requires 1 <= i < |t| && WellFormed(t)
    ensures var was := Sockets(Kept(t[..i])) + Sockets(t[i..]);
            && t[i].sock in was
            && (t[i].detected ==>
                  Kept(t[..i + 1]) == Kept(t[..i]) + [t[i]] && Sockets(Kept(t[..i + 1])) + Sockets(t[i + 1..]) == was)
            && (!t[i].detected ==>
                  Kept(t[..i + 1]) == Kept(t[..i]) && Sockets(Kept(t[..i])) + Sockets(t[i + 1..]) == was - {t[i].sock})
  {
    hide Sockets;
    assert t[..i + 1][..i] == t[..i];
    FirstSocket(t, i);
    OneMoreSocket(Kept(t[..i]), t[i]);
    KeptSockets(t[..i]);
    assert t[i].sock !in Sockets(t[..i]) by {
      NotBefore(t, i);
    }
  }

  lemma NotBefore(t: seq<Slot>, i: nat)
    requires i < |t| && forall j, k | 0 <= j < k < |t| :: t[j].sock != t[k].sock
    ensures t[i].sock !in Sockets(t[..i])
  {
  }

  lemma SameSockets(a: seq<Slot>, b: seq<Slot>)
    requires |a| == |b| && forall i | 0 <= i < |a| :: a[i].sock == b[i].sock
    ensures Sockets(a) == Sockets(b)
  {
    assert forall s :: s in Sockets(a) ==> exists i :: 0 <= i < |b| && b[i].sock == s;
  }

  lemma OneMoreSocket(a: seq<Slot>, slot: Slot)
    ensures Sockets(a + [slot]) == Sockets(a) + {slot.sock}
  {
    var b := a + [slot];
    assert b[|a|] == slot;
    forall s | s in Sockets(a)
      ensures s in Sockets(b)
    {
      var i :| 0 <= i < |a| && a[i].sock == s;
      assert b[i].sock == s;
    }
  }
}
