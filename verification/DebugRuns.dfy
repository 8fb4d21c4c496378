// The debug queue as a protocol: any number of producers, one consumer thread that looks at the
// oldest message without taking it, writes it out, and only then removes the oldest message. Each
// step is one critical section, or the write between two of them.
module DebugRuns {
  import opened Bytes

  const DEPTH_LIMIT: uint32 := 1024

  datatype Consumer<M> =
    | Looking
    | Writing(message: M)
    | Written(message: M)
    | Discarding(message: M)
    | Stopped

  datatype Removal<M> = Removal(message: M, written: bool)

  // `enqueued`, `written` and `removed` are histories, oldest first; a crash is the removal from an
  // empty queue.
  datatype State<M> = State(
    queue: seq<M>, depth: uint32, consumer: Consumer<M>, crashed: bool,
    enqueued: seq<M>, written: seq<M>, removed: seq<Removal<M>>)

  datatype Action<M> =
    | Enqueue(added: M)
    | Look
    | Output(sent: bool)
    | Remove
    | Stop

  function Start<M>(): State<M> {
    State([], 0, Looking, false, [], [], [])
  }

  // An action that the consumer is not about to do leaves the state as it is.
  function Next<M>(st: State<M>, action: Action<M>): State<M> {
    match action
    case Enqueue(m) =>
      st.(queue := st.queue + [m], depth := Wrap32(st.depth + 1), enqueued := st.enqueued + [m])
    case Look =>
      if !st.consumer.Looking? || st.queue == [] then st
      else st.(consumer := if st.depth > DEPTH_LIMIT then Discarding(st.queue[0]) else Writing(st.queue[0]))
    case Output(sent) =>
      if !st.consumer.Writing? then st
      else if !sent then st.(consumer := Looking)
      else st.(consumer := Written(st.consumer.message), written := st.written + [st.consumer.message])
    case Remove =>
      if !st.consumer.Written? && !st.consumer.Discarding? then st
      else if st.queue == [] then st.(crashed := true)
      else
        st.(queue := st.queue[1..], depth := Wrap32(st.depth - 1), consumer := Looking,
            removed := st.removed + [Removal(st.queue[0], st.consumer.Written?)])
    case Stop => if st.consumer.Looking? then st.(consumer := Stopped) else st
  }

  function Run<M>(st: State<M>, actions: seq<Action<M>>): State<M>
    decreases |actions|
  {
    if actions == [] then st else Run(Next(st, actions[0]), actions[1..])
  }

  // ---------------------------------------------------------------- what the histories say

  function Messages<M>(removed: seq<Removal<M>>): (r: seq<M>)
    ensures |r| == |removed| && forall i | 0 <= i < |r| :: r[i] == removed[i].message
  {
    seq(|removed|, i requires 0 <= i < |removed| => removed[i].message)
  }

  function Outputs<M>(removed: seq<Removal<M>>): seq<M> {
    if removed == [] then []
    else
      var last := removed[|removed| - 1];
      Outputs(removed[..|removed| - 1]) + if last.written then [last.message] else []
  }

  function Drops<M>(removed: seq<Removal<M>>): seq<M> {
    if removed == [] then []
    else
      var last := removed[|removed| - 1];
      Drops(removed[..|removed| - 1]) + if last.written then [] else [last.message]
  }

  // The messages `part` stand in `whole` at strictly rising positions: in order, none repeated.
  ghost predicate InOrder<M>(part: seq<M>, whole: seq<M>) {
    exists at: seq<nat> :: Places(part, whole, at)
  }

  ghost predicate Places<M>(part: seq<M>, whole: seq<M>, at: seq<nat>) {
    && |at| == |part|
    && (forall k | 0 <= k < |at| :: at[k] < |whole| && whole[at[k]] == part[k])
    && (forall j, k | 0 <= j < k < |at| :: at[j] < at[k])
  }

  function Holds<M>(consumer: Consumer<M>): bool {
    consumer.Writing? || consumer.Written? || consumer.Discarding?
  }

  function Unremoved<M>(consumer: Consumer<M>): seq<M> {
    if consumer.Written? then [consumer.message] else []
  }

  ghost predicate Inv<M>(st: State<M>) {
    && !st.crashed
    && st.depth == |st.queue| % 0x1_0000_0000
    && st.enqueued == Messages(st.removed) + st.queue
    && st.written == Outputs(st.removed) + Unremoved(st.consumer)
    && (Holds(st.consumer) ==> st.queue != [] && st.queue[0] == st.consumer.message)
    && (st.consumer.Discarding? ==> |st.queue| > DEPTH_LIMIT)
    && (forall i | 0 <= i < |st.removed| :: st.removed[i].written || i + DEPTH_LIMIT < |st.enqueued|)
  }

  lemma RemovedOneMore<M>(removed: seq<Removal<M>>, r: Removal<M>)
    ensures Messages(removed + [r]) == Messages(removed) + [r.message]
    ensures Outputs(removed + [r]) == Outputs(removed) + if r.written then [r.message] else []
    ensures Drops(removed + [r]) == Drops(removed) + if r.written then [] else [r.message]
  {
    assert (removed + [r])[..|removed|] == removed;
  }

  lemma DepthModulus(n: nat)
    ensures Wrap32(n % 0x1_0000_0000 + 1) == (n + 1) % 0x1_0000_0000
    ensures n > 0 ==> Wrap32(n % 0x1_0000_0000 - 1) == (n - 1) % 0x1_0000_0000
    ensures n % 0x1_0000_0000 <= n
  {
  }

  lemma EnqueueKeeps<M>(st: State<M>, m: M)
    requires Inv(st)
    ensures Inv(Next(st, Enqueue(m)))
  {
    hide Messages, Outputs, Wrap32;
    DepthModulus(|st.queue|);
    assert Next(st, Enqueue(m)).enqueued == Messages(st.removed) + (st.queue + [m]);
  }

  lemma RemoveKeeps<M>(st: State<M>)
    requires Inv(st) && (st.consumer.Written? || st.consumer.Discarding?)
    ensures Inv(Next(st, Remove))
  {
    hide Messages, Outputs, Wrap32;
    var next := Next(st, Remove);
    DepthModulus(|st.queue|);
    RemovedOneMore(st.removed, Removal(st.queue[0], st.consumer.Written?));
    assert st.queue == [st.queue[0]] + st.queue[1..];
    assert next.enqueued == (Messages(st.removed) + [st.queue[0]]) + next.queue;
    assert |st.enqueued| == |st.removed| + |st.queue|;
  }

  lemma RemovalIs<M>(st: State<M>)
    requires Inv(st) && (st.consumer.Written? || st.consumer.Discarding?)
    ensures st.queue != [] && st.queue[0] == st.consumer.message
    ensures Inv(Next(st, Remove))
    ensures Next(st, Remove) == State(st.queue[1..], Wrap32(st.depth - 1), Looking, false, st.enqueued, st.written,
                                      st.removed + [Removal(st.consumer.message, st.consumer.Written?)])
  {
    RemoveKeeps(st);
  }

  lemma ConsumerKeeps<M>(st: State<M>, action: Action<M>)
    requires Inv(st) && (action.Look? || action.Output? || action.Stop?)
    ensures Inv(Next(st, action))
  {
    hide Messages, Outputs, Wrap32;
    DepthModulus(|st.queue|);
  }

  lemma NextKeeps<M>(st: State<M>, action: Action<M>)
    requires Inv(st)
    ensures Inv(Next(st, action))
  {
    match action
    case Enqueue(m) =>
      EnqueueKeeps(st, m);
    case Remove =>
      if st.consumer.Written? || st.consumer.Discarding? {
        RemoveKeeps(st);
      }
    case _ =>
      ConsumerKeeps(st, action);
  }

  lemma StartHolds<M>()
    ensures Inv(Start<M>())
  {
  }

  lemma {:induction false} RunKeeps<M>(st: State<M>, actions: seq<Action<M>>)
    requires Inv(st)
    ensures Inv(Run(st, actions))
    decreases |actions|
  {
    hide Inv, Next;
    if actions != [] {
      NextKeeps(st, actions[0]);
      RunKeeps(Next(st, actions[0]), actions[1..]);
    }
  }

  // ---------------------------------------------------------------- what every run promises

  // However many producers come between: the message the consumer looked at stays the oldest in the
  // queue for as long as the consumer uses it, and is the one then removed.
  lemma RemovedIsLookedAt<M>(actions: seq<Action<M>>)
    ensures var st := Run(Start(), actions);
            && !st.crashed
            && (Holds(st.consumer) ==> st.queue != [] && st.queue[0] == st.consumer.message)
            && (st.consumer.Written? || st.consumer.Discarding? ==>
                  var next := Next(st, Remove);
                  !next.crashed && next.removed == st.removed + [Removal(st.consumer.message, st.consumer.Written?)])
  {
    hide Run;
    StartHolds<M>();
    RunKeeps(Start(), actions);
  }

  function OutputPlaces<M>(removed: seq<Removal<M>>): seq<nat> {
    if removed == [] then []
    else
      var n := |removed| - 1;
      OutputPlaces(removed[..n]) + if removed[n].written then [n] else []
  }

  lemma {:induction false} OutputsHavePlaces<M>(removed: seq<Removal<M>>)
    ensures Places(Outputs(removed), Messages(removed), OutputPlaces(removed))
  {
    if removed != [] {
      var n := |removed| - 1;
      OutputsHavePlaces(removed[..n]);
      assert forall i | 0 <= i < n :: Messages(removed)[i] == Messages(removed[..n])[i];
    }
  }

  lemma PlacesExtend<M>(part: seq<M>, whole: seq<M>, more: seq<M>, at: seq<nat>)
    requires Places(part, whole, at)
    ensures Places(part, whole + more, at)
    ensures more != [] ==> Places(part + [more[0]], whole + more, at + [|whole|])
  {
  }

  // Successful outputs are in the order of the enqueues, none twice.
  lemma OutputsInOrder<M>(actions: seq<Action<M>>)
    ensures var st := Run(Start(), actions);
            InOrder(st.written, st.enqueued)
  {
    hide Run, Outputs, Messages;
    StartHolds<M>();
    RunKeeps(Start(), actions);
    var st := Run(Start(), actions);
    var at := OutputPlaces(st.removed);
    OutputsHavePlaces(st.removed);
    PlacesExtend(Outputs(st.removed), Messages(st.removed), st.queue, at);
    if st.consumer.Written? {
      assert Places(st.written, st.enqueued, at + [|Messages(st.removed)|]);
    } else {
      assert Places(st.written, st.enqueued, at);
    }
  }

  lemma {:induction false} OutputsAndDrops<M>(removed: seq<Removal<M>>)
    ensures |Outputs(removed)| + |Drops(removed)| == |removed|
  {
    if removed != [] {
      OutputsAndDrops(removed[..|removed| - 1]);
    }
  }

  // Enqueued is output and dropped and queued; a message written but not yet removed is both output
  // and queued.
  lemma Conservation<M>(actions: seq<Action<M>>)
    ensures var st := Run(Start(), actions);
            |st.enqueued| + (if st.consumer.Written? then 1 else 0)
              == |st.written| + |Drops(st.removed)| + |st.queue|
  {
    hide Run, Outputs, Messages, Drops;
    StartHolds<M>();
    RunKeeps(Start(), actions);
    OutputsAndDrops(Run(Start(), actions).removed);
  }

  // Only a message with more than a thousand later ones is ever dropped: the latest 1024 never are.
  lemma LatestAreKept<M>(actions: seq<Action<M>>, i: nat)
    ensures var st := Run(Start(), actions);
            i < |st.removed| && i + DEPTH_LIMIT >= |st.enqueued| ==> st.removed[i].written
  {
    hide Run;
    StartHolds<M>();
    RunKeeps(Start(), actions);
  }

  // When flush sees the queue empty, everything enqueued so far has been removed in order, each
  // message either output or dropped.
  lemma FlushedIsDone<M>(actions: seq<Action<M>>)
    ensures var st := Run(Start(), actions);
            st.queue == [] ==>
              Messages(st.removed) == st.enqueued && st.written == Outputs(st.removed)
              && |st.written| + |Drops(st.removed)| == |st.enqueued|
  {
    hide Run, Outputs, Messages, Drops;
    StartHolds<M>();
    RunKeeps(Start(), actions);
    OutputsAndDrops(Run(Start(), actions).removed);
  }

  // ---------------------------------------------------------------- what the consumer achieves

  lemma RunThree<M>(st: State<M>, a: Action<M>, b: Action<M>, c: Action<M>)
    ensures Run(st, [a, b]) == Next(Next(st, a), b)
    ensures Run(st, [a, b, c]) == Next(Next(Next(st, a), b), c)
  {
    assert [a, b][1..] == [b] && [b][1..] == [];
    assert [a, b, c][1..] == [b, c] && [b, c][1..] == [c] && [c][1..] == [];
    assert Run(st, [a, b]) == Run(Next(st, a), [b]) == Run(Next(Next(st, a), b), []);
    assert Run(st, [a, b, c]) == Run(Next(st, a), [b, c]) == Run(Next(Next(st, a), b), [c]);
    assert Run(Next(Next(st, a), b), [c]) == Run(Next(Next(Next(st, a), b), c), []);
  }

  // One turn of the thread on a queue of up to 1024 messages: an output that succeeds removes exactly
  // the oldest, one that fails leaves everything as it was.
  lemma TurnWrites<M>(st: State<M>)
    requires Inv(st) && st.consumer.Looking? && st.queue != [] && |st.queue| <= 1024
    ensures var e := Run(st, [Look, Output(true), Remove]);
            && e.written == st.written + [st.queue[0]] && e.queue == st.queue[1..]
            && e.removed == st.removed + [Removal(st.queue[0], true)]
            && e.consumer.Looking? && e.enqueued == st.enqueued
    ensures Run(st, [Look, Output(false)]) == st
  {
    RunThree(st, Look, Output(true), Remove);
    RunThree(st, Look, Output(false), Remove);
    hide Messages, Outputs, Wrap32;
  }

  // One turn on a longer queue: the oldest is dropped. (With 2^32 messages the depth is back at zero.)
  lemma TurnDrops<M>(st: State<M>)
    requires Inv(st) && st.consumer.Looking? && st.queue != [] && |st.queue| % 0x1_0000_0000 > 1024
    ensures var e := Run(st, [Look, Remove]);
            && e.written == st.written && e.queue == st.queue[1..]
            && e.removed == st.removed + [Removal(st.queue[0], false)]
            && e.consumer.Looking? && e.enqueued == st.enqueued
  {
    RunThree(st, Look, Remove, Stop);
    hide Messages, Outputs, Wrap32;
  }

  function Turns<M>(n: nat): seq<Action<M>> {
    if n == 0 then [] else [Look, Output(true), Remove] + Turns(n - 1)
  }

  lemma {:induction false} RunTogether<M>(st: State<M>, a: seq<Action<M>>, b: seq<Action<M>>)
    ensures Run(st, a + b) == Run(Run(st, a), b)
    decreases |a|
  {
    if a == [] {
      assert a + b == b;
    } else {
      assert (a + b)[1..] == a[1..] + b;
      RunTogether(Next(st, a[0]), a[1..], b);
    }
  }

  // While outputs succeed, a turn for each message of a queue of up to 1024 empties it, and everything
  // in it is written in order.
  lemma {:induction false} TurnsEmpty<M>(st: State<M>)
    requires Inv(st) && st.consumer.Looking? && |st.queue| <= 1024
    ensures var e := Run(st, Turns(|st.queue|));
            && e.queue == [] && e.written == st.written + st.queue && e.consumer.Looking?
            && e.enqueued == st.enqueued && Drops(e.removed) == Drops(st.removed)
    decreases |st.queue|
  {
    if st.queue == [] {
      assert st.written + [] == st.written;
    } else {
      var turn: seq<Action<M>> := [Look, Output(true), Remove];
      var next := Run(st, turn);
      TurnWrites(st);
      RunKeeps(st, turn);
      RemovedOneMore(st.removed, Removal(st.queue[0], true));
      hide Inv, Run, Drops;
      RunTogether(st, turn, Turns(|st.queue| - 1));
      TurnsEmpty(next);
      assert st.written + [st.queue[0]] + st.queue[1..] == st.written + st.queue;
      assert Drops(st.removed) + [] == Drops(st.removed);
    }
  }

  function Enqueues<M>(ms: seq<M>): (actions: seq<Action<M>>)
    ensures |actions| == |ms| && forall i | 0 <= i < |ms| :: actions[i] == Enqueue(ms[i])
  {
    seq(|ms|, i requires 0 <= i < |ms| => Enqueue(ms[i]))
  }

  lemma {:induction false} EnqueuesQueue<M>(st: State<M>, ms: seq<M>)
    ensures var e := Run(st, Enqueues(ms));
            && e.queue == st.queue + ms && e.enqueued == st.enqueued + ms
            && e.written == st.written && e.consumer == st.consumer && e.removed == st.removed
    decreases |ms|
  {
    if ms == [] {
      assert st.queue + ms == st.queue && st.enqueued + ms == st.enqueued;
    } else {
      assert Enqueues(ms)[1..] == Enqueues(ms[1..]);
      EnqueuesQueue(Next(st, Enqueue(ms[0])), ms[1..]);
      assert st.queue + [ms[0]] + ms[1..] == st.queue + ms && st.enqueued + [ms[0]] + ms[1..] == st.enqueued + ms;
    }
  }

  // From the start: up to 1024 messages are all written, in order, and flush then sees an empty queue.
  lemma AllAreWritten<M>(ms: seq<M>)
    requires |ms| <= 1024
    ensures var e := Run(Start(), Enqueues(ms) + Turns(|ms|));
            e.written == ms && e.enqueued == ms && e.queue == []
  {
    hide Run, Inv;
    var queued := Run(Start(), Enqueues(ms));
    StartHolds<M>();
    RunKeeps(Start(), Enqueues(ms));
    EnqueuesQueue(Start(), ms);
    assert [] + ms == ms;
    RunTogether(Start(), Enqueues(ms), Turns(|ms|));
    TurnsEmpty(queued);
  }
}
