// The queue of debug messages: doubly linked, new messages at the head, the oldest at the tail.
module DebugQueue {
  import opened Bytes
  import opened DebugRuns

  class Message {
    var next: Message?
    var prev: Message?
    const text: string

    constructor (text: string)
      ensures this.text == text && next == null && prev == null
    {
      this.text := text;
      next, prev := null, null;
    }
  }

  function NthOrNull(s: seq<Message>, i: int): Message? {
    if 0 <= i < |s| then s[i] else null
  }

  class Debug {
    var head: Message?
    var tail: Message?
    var depth: uint32
    // Where the consumer thread stands, with the message it looked at.
    var consumer: Consumer<Message>
    ghost var queue: seq<Message>
    ghost var enqueued: seq<Message>
    ghost var written: seq<Message>
    ghost var removed: seq<Removal<Message>>

    ghost function View(): State<Message>
      reads this
    {
      State(queue, depth, consumer, false, enqueued, written, removed)
    }

    ghost predicate Valid()
      reads this, queue
    {
      Linked() && Inv(View())
    }

    // `next` leads from each message to the one before it in the queue, `prev` to the one after.
    ghost predicate Linked()
      reads `head, `tail, `queue, queue
    {
      && (forall i, j | 0 <= i < j < |queue| :: queue[i] != queue[j])
      && tail == NthOrNull(queue, 0) && head == NthOrNull(queue, |queue| - 1)
      && (forall i {:trigger queue[i].next} | 0 <= i < |queue| :: queue[i].next == NthOrNull(queue, i - 1))
      && (forall i {:trigger queue[i].prev} | 0 <= i < |queue| :: queue[i].prev == NthOrNull(queue, i + 1))
    }

    constructor ()
      ensures Valid() && View() == Start()
    {
      head, tail, depth, consumer := null, null, 0, Looking;
      queue, enqueued, written, removed := [], [], [], [];
    }

    // The locked part of hdhomerun_debug_vprintf.
    method Enqueue(text: string)
      requires Valid()
      modifies this, queue
      ensures Valid() && queue != [] && fresh(queue[|queue| - 1]) && queue[|queue| - 1].text == text
      ensures View() == Next(old(View()), DebugRuns.Enqueue(queue[|queue| - 1]))
    {
      hide Inv, Linked;
      var message := new Message(text);
      NextKeeps(View(), DebugRuns.Enqueue(message));
      LinkAtHead(message);
      depth := Wrap32(depth + 1);
      enqueued := enqueued + [message];
    }

    method LinkAtHead(message: Message)
      requires Linked() && message !in queue
      modifies `head, `tail, `queue, queue, message
      ensures Linked() && queue == old(queue) + [message]
    {
      message.prev := null;
      message.next := head;
      head := message;
      if message.next != null {
        message.next.prev := message;
      } else {
        tail := message;
      }
      ghost var was := queue;
      assert forall i | 0 <= i < |was| :: was[i] != message;
      queue := was + [message];
    }

    // The locked look at the tail, and what the thread decides on it.
    method Look()
      requires Valid() && consumer.Looking?
      modifies `consumer
      ensures Valid() && View() == Next(old(View()), DebugRuns.Look)
    {
      NextKeeps(View(), DebugRuns.Look);
      hide Inv;
      var message := tail;
      if message == null {
        return;
      }
      if depth > DEPTH_LIMIT {
        consumer := Discarding(message);
      } else {
        consumer := Writing(message);
      }
    }

    // hdhomerun_debug_output_message; `sent` is whether the file or socket took it.
    method Output(sent: bool)
      requires Valid() && consumer.Writing?
      modifies `consumer, `written
      ensures Valid() && View() == Next(old(View()), DebugRuns.Output(sent))
    {
      NextKeeps(View(), DebugRuns.Output(sent));
      hide Inv, Linked;
      if !sent {
        consumer := Looking;
        return;
      }
      written := written + [consumer.message];
      consumer := Written(consumer.message);
    }

    // hdhomerun_debug_pop_and_free_message. It does not check that there is a message: by the
    // protocol's invariant there is.
    method Remove()
      requires Valid() && (consumer.Written? || consumer.Discarding?)
      modifies this, queue
      ensures Valid() && View() == Next(old(View()), DebugRuns.Remove)
      ensures removed[|removed| - 1].message == old(consumer.message)
    {
      hide Inv, Linked, Next, Wrap32;
      RemovalIs(View());
      UnlinkTail();
      depth := Wrap32(depth - 1);
      removed := removed + [Removal(consumer.message, consumer.Written?)];
      consumer := Looking;
    }

    method UnlinkTail()
      requires Linked() && queue != []
      modifies `head, `tail, `queue, queue
      ensures Linked() && queue == old(queue)[1..]
    {
      var message: Message := tail;
      tail := message.prev;
      if message.prev != null {
        message.prev.next := null;
      } else {
        head := null;
      }
      ghost var was := queue;
      queue := was[1..];
      assert forall i | 0 <= i < |queue| :: queue[i] == was[i + 1];
    }

    // The test hdhomerun_debug_flush repeats until its time is up.
    method Flushed() returns (done: bool)
      requires Valid()
      ensures done <==> queue == []
    {
      hide Inv;
      done := tail == null;
    }
  }
}
