// The control connection: get/set requests are built into the transmit packet, replies are taken
// from a byte stream that TCP delivers in arbitrary pieces.
module Control {
  import opened Bytes
  import opened FrameCheck
  import opened Frame
  import opened Tlv
  import opened Packet

  const TYPE_GETSET_REQ: uint16 := 0x0004
  const TAG_GETSET_NAME: byte := 0x03
  const TAG_GETSET_VALUE: byte := 0x04
  const TAG_GETSET_LOCKKEY: byte := 0x15

  // Room between the start of a reset packet and its limit.
  const CAPACITY: nat := BUFFER_SIZE - 4 - HEADER_SPACE

  // ---------------------------------------------------------------- requests

  // A C string is sent with its terminating zero.
  function StringField(tag: byte, text: seq<byte>): Field {
    Field(tag, text + [0])
  }

  function NameFields(name: seq<byte>): seq<Field> {
    [StringField(TAG_GETSET_NAME, name)]
  }

  function ValueFields(value: Option<seq<byte>>): seq<Field> {
    if value.Some? then [StringField(TAG_GETSET_VALUE, value.value)] else []
  }

  function LockkeyFields(lockkey: uint32): seq<Field> {
    if lockkey != 0 then [Field(TAG_GETSET_LOCKKEY, U32Bytes(lockkey))] else []
  }

  function RequestFields(name: seq<byte>, value: Option<seq<byte>>, lockkey: uint32): seq<Field> {
    NameFields(name) + ValueFields(value) + LockkeyFields(lockkey)
  }

  // The size checks. Three bytes are allowed for tag and length even when one length byte is enough,
  // so a string field within one byte of the capacity is refused although it would fit.
  predicate StringFits(used: nat, text: seq<byte>) {
    used + 3 + |text| + 1 <= CAPACITY
  }

  predicate RequestFits(name: seq<byte>, value: Option<seq<byte>>, lockkey: uint32) {
    && StringFits(0, name)
    && (value.Some? ==> StringFits(|EncodeAll(NameFields(name))|, value.value))
    && (lockkey != 0 ==> |EncodeAll(NameFields(name) + ValueFields(value))| + 6 <= CAPACITY)
  }

  lemma EncodeOne(f: Field)
    ensures EncodeAll([f]) == Encode(f)
  {
    assert EncodeAll([f]) == Encode(f) + EncodeAll([]);
  }

  // A request that passes the checks leaves room for the CRC behind the limit, and the device that
  // opens the sealed frame and walks its payload finds name, value and lockkey as given.
  lemma RequestDecodes(name: seq<byte>, value: Option<seq<byte>>, lockkey: uint32)
    requires RequestFits(name, value, lockkey)
    ensures var payload := EncodeAll(RequestFields(name, value, lockkey));
            && |payload| <= CAPACITY
            && Open(Seal(TYPE_GETSET_REQ, payload)) == Accepted(TYPE_GETSET_REQ, payload)
            && Decode(payload) == RequestFields(name, value, lockkey)
  {
    var fields := RequestFields(name, value, lockkey);
    EncodeAllAppend(NameFields(name), ValueFields(value));
    EncodeAllAppend(NameFields(name) + ValueFields(value), LockkeyFields(lockkey));
    EncodeOne(StringField(TAG_GETSET_NAME, name));
    if value.Some? {
      EncodeOne(StringField(TAG_GETSET_VALUE, value.value));
    }
    EncodeOne(Field(TAG_GETSET_LOCKKEY, U32Bytes(lockkey)));
    RoundTrip(fields);
    OpenIffSealed(Seal(TYPE_GETSET_REQ, EncodeAll(fields)), TYPE_GETSET_REQ, EncodeAll(fields));
  }

  // What is on the wire, in plain numbers: field 3 is the name and field 4 the value, each with the
  // zero that ends a C string, and field 21 the lockkey, high byte first.
  lemma RequestLayout(name: seq<byte>, value: Option<seq<byte>>, lockkey: uint32)
    requires RequestFits(name, value, lockkey)
    ensures exists key: seq<byte> ::
              && |key| == 4 && HighFirst(key) == lockkey
              && Decode(EncodeAll(RequestFields(name, value, lockkey)))
                 == [Field(3, name + [0])] + (if value.Some? then [Field(4, value.value + [0])] else [])
                    + (if lockkey != 0 then [Field(21, key)] else [])
  {
    var key := U32Bytes(lockkey);
    KeyBytes(lockkey);
    RequestDecodes(name, value, lockkey);
  }

  lemma KeyBytes(v: uint32)
    ensures HighFirst(U32Bytes(v)) == v
  {
    U32RoundTrip(v);
  }

  function HighFirst(key: seq<byte>): int
    requires |key| == 4
  {
    0x100_0000 * (key[0] as int) + 0x1_0000 * (key[1] as int) + 0x100 * (key[2] as int) + key[3]
  }

  // Which requests are sent, in plain numbers: the buffer has room for 2046 bytes, and each string is
  // allowed three bytes besides its own and its zero.
  lemma WhichRequestsFit(name: seq<byte>, value: Option<seq<byte>>, lockkey: uint32)
    ensures var n := |name| + 1;
            var used := n + if n <= 127 then 2 else 3;
            var v := if value.Some? then |value.value| + 1 else 0;
            var used' := used + if value.None? then 0 else v + if v <= 127 then 2 else 3;
            var fits := n + 3 <= 2046 && (value.Some? ==> used + 3 + v <= 2046) && (lockkey != 0 ==> used' + 6 <= 2046);
            RequestFits(name, value, lockkey) <==> fits
  {
    EncodeOne(StringField(TAG_GETSET_NAME, name));
    EncodeAllAppend(NameFields(name), ValueFields(value));
    if value.Some? {
      EncodeOne(StringField(TAG_GETSET_VALUE, value.value));
    }
  }

  // ---------------------------------------------------------------- the receive loop

  datatype Received = TimedOut | ReceiveFailed | FrameError | Got(frameType: uint16, payload: seq<byte>)

  // The receive loop when the peer sends `stream` and each recv call finds the given number of bytes
  // ready. Nothing ready, no room or the end of the stream is a failed recv; the list running out is
  // the deadline.
  function Receive(stream: seq<byte>, taken: nat, ready: seq<nat>): Received
    requires taken <= |stream| && taken <= CAPACITY
    decreases ready
  {
    if ready == [] then TimedOut
    else
      var n := Min(ready[0], Min(CAPACITY - taken, |stream| - taken));
      if n == 0 then ReceiveFailed
      else
        match Open(stream[..taken + n])
        case Incomplete => Receive(stream, taken + n, ready[1..])
        case Corrupt => FrameError
        case Accepted(t, payload) => Got(t, payload)
  }

  // The pieces add up to n bytes before any of them is empty.
  predicate Delivers(ready: seq<nat>, n: nat)
    decreases ready
  {
    n == 0 || (ready != [] && ready[0] > 0 && (ready[0] >= n || Delivers(ready[1..], n - ready[0])))
  }

  // Whatever the split, a stream starting with a frame that fits the receive buffer yields that
  // frame exactly when its last byte arrives, and is never taken for damaged.
  lemma {:induction false} SplitDoesNotMatter(stream: seq<byte>, frameType: uint16, payload: seq<byte>,
                                              taken: nat, ready: seq<nat>)
    requires |payload| + 8 <= CAPACITY && Seal(frameType, payload) <= stream
    requires taken < |payload| + 8
    ensures Receive(stream, taken, ready) == Got(frameType, payload)
       <==> Delivers(ready, |payload| + 8 - taken)
    ensures var r := Receive(stream, taken, ready); r == Got(frameType, payload) || r == TimedOut || r == ReceiveFailed
    decreases ready
  {
    hide Open, Seal;
    var f := Seal(frameType, payload);
    if ready != [] && ready[0] > 0 {
      var n := Min(ready[0], Min(CAPACITY - taken, |stream| - taken));
      var s := stream[..taken + n];
      if |s| < |f| {
        assert s < f;
        ProperPrefixIncomplete(frameType, payload, s);
        SplitDoesNotMatter(stream, frameType, payload, taken + n, ready[1..]);
      } else {
        assert f <= s;
        OpenIffSealed(s, frameType, payload);
      }
    }
  }

  // Whatever the peer sends and however it arrives: what is received was sealed, and fits the buffer.
  lemma {:induction false} ReceivedIsSealed(stream: seq<byte>, taken: nat, ready: seq<nat>)
    requires taken <= |stream| && taken <= 2046
    ensures match Receive(stream, taken, ready)
            case Got(frameType, payload) => |payload| + 8 <= 2046 && Seal(frameType, payload) <= stream
            case _ => true
    decreases ready
  {
    hide Open, Seal;
    if ready != [] {
      var n := Min(ready[0], Min(CAPACITY - taken, |stream| - taken));
      if n > 0 {
        var s := stream[..taken + n];
        match Open(s)
        case Incomplete => ReceivedIsSealed(stream, taken + n, ready[1..]);
        case Corrupt =>
        case Accepted(_, _) => OpenedIsSealed(s);
      }
    }
  }

  // A frame that fits the buffer and has damage inside 32 consecutive bits, none of it in the length,
  // is refused with an error as soon as its last byte is there, whatever the split, and never received.
  lemma {:induction false} DamagedIsRefused(frame: seq<byte>, stream: seq<byte>, from: nat, to: nat,
                                            taken: nat, ready: seq<nat>)
    requires Open(frame).Accepted? && |frame| == FrameLength(frame) <= 2046
    requires |stream| >= |frame| && stream[2] == frame[2] && stream[3] == frame[3]
    requires stream[..|frame|] != frame && BurstOnly(stream[..|frame|], frame, from, to)
    requires taken < |frame|
    ensures Receive(stream, taken, ready) == FrameError <==> Delivers(ready, |frame| - taken)
    ensures var r := Receive(stream, taken, ready); r == FrameError || r == TimedOut || r == ReceiveFailed
    decreases ready
  {
    hide Open, BurstOnly;
    if ready != [] && ready[0] > 0 {
      var n := Min(ready[0], Min(CAPACITY - taken, |stream| - taken));
      var s := stream[..taken + n];
      if |s| < |frame| {
        assert |s| >= 4 ==> s[2] == frame[2] && s[3] == frame[3];
        OpenCases(s);
        DamagedIsRefused(frame, stream, from, to, taken + n, ready[1..]);
      } else {
        assert s[..|frame|] == stream[..|frame|] && s[2] == stream[2] && s[3] == stream[3];
        DamagedOpens(frame, s, from, to);
      }
    }
  }

  lemma DamagedOpens(frame: seq<byte>, s: seq<byte>, from: nat, to: nat)
    requires Open(frame).Accepted? && |frame| == FrameLength(frame) <= |s|
    requires s[2] == frame[2] && s[3] == frame[3] && s[..|frame|] != frame && BurstOnly(s[..|frame|], frame, from, to)
    ensures Open(s) == Corrupt
  {
    hide BurstOnly, Matches;
    var whole := frame + s[|frame|..];
    assert whole[..|frame|] == frame && s[..|frame|][2] == s[2];
    OpenedIsSealed(frame);
    OpenIffSealed(whole, Open(frame).frameType, Open(frame).payload);
    BurstIsCorrupt(whole, s, from, to);
  }

  // A frame larger than the receive buffer is never received, however it arrives.
  lemma {:induction false} LongFrameNeverReceived(stream: seq<byte>, frameType: uint16, payload: seq<byte>,
                                                  taken: nat, ready: seq<nat>)
    requires CAPACITY < |payload| + 8 && |payload| < 0x1_0000 && Seal(frameType, payload) <= stream
    requires taken <= CAPACITY
    ensures Receive(stream, taken, ready) == TimedOut || Receive(stream, taken, ready) == ReceiveFailed
    decreases ready
  {
    if ready != [] {
      var n := Min(ready[0], Min(CAPACITY - taken, |stream| - taken));
      var s := stream[..taken + n];
      assert s < Seal(frameType, payload);
      ProperPrefixIncomplete(frameType, payload, s);
      if n > 0 {
        LongFrameNeverReceived(stream, frameType, payload, taken + n, ready[1..]);
      }
    }
  }

  // The request part of hdhomerun_control_get_set.
  method BuildRequest(txPkt: Pkt, name: seq<byte>, value: Option<seq<byte>>, lockkey: uint32) returns (ok: bool)
    requires txPkt.Valid()
    modifies txPkt, txPkt.buffer
    ensures txPkt.Valid()
    ensures ok <==> RequestFits(name, value, lockkey)
    ensures ok ==> txPkt.start == HEADER_SPACE && txPkt.end <= txPkt.limit
    ensures ok ==> txPkt.Content() == EncodeAll(RequestFields(name, value, lockkey))
  {
    hide Encode, EncodeAll, Splice;
    txPkt.Reset();
    var nameLen := |name| + 1;
    if txPkt.end + 3 + nameLen > txPkt.limit {
      return false;
    }
    NothingEncoded();
    PutString(txPkt, TAG_GETSET_NAME, name);
    ghost var fields := NameFields(name);
    if value.Some? {
      var valueLen := |value.value| + 1;
      if txPkt.end + 3 + valueLen > txPkt.limit {
        return false;
      }
      PutString(txPkt, TAG_GETSET_VALUE, value.value);
    }
    EncodeAllAppend(fields, ValueFields(value));
    fields := fields + ValueFields(value);
    if lockkey != 0 {
      if txPkt.end + 6 > txPkt.limit {
        return false;
      }
      PutLockkey(txPkt, lockkey);
    }
    EncodeAllAppend(fields, LockkeyFields(lockkey));
    return true;
  }

  lemma NothingEncoded()
    ensures EncodeAll([]) == []
  {
  }

  method PutString(txPkt: Pkt, tag: byte, text: seq<byte>)
    requires txPkt.Valid() && txPkt.pos == txPkt.end && txPkt.end + 3 + |text| + 1 <= txPkt.limit
    modifies txPkt`pos, txPkt`end, txPkt.buffer
    ensures txPkt.Valid() && txPkt.pos == txPkt.end <= old(txPkt.end) + 3 + |text| + 1
    ensures txPkt.Content() == old(txPkt.Content()) + EncodeAll([StringField(tag, text)])
  {
    EncodeOne(StringField(tag, text));
    txPkt.AppendField(tag, text + [0]);
  }

  method PutLockkey(txPkt: Pkt, lockkey: uint32)
    requires txPkt.Valid() && txPkt.pos == txPkt.end && txPkt.end + 6 <= txPkt.limit && lockkey != 0
    modifies txPkt`pos, txPkt`end, txPkt.buffer
    ensures txPkt.Valid() && txPkt.end == old(txPkt.end) + 6
    ensures txPkt.Content() == old(txPkt.Content()) + EncodeAll(LockkeyFields(lockkey))
  {
    ghost var before := txPkt.Content();
    ghost var bytes := U32Bytes(lockkey);
    EncodeOne(Field(TAG_GETSET_LOCKKEY, bytes));
    assert LengthBytes(4) == [4];
    hide EncodeAll, U32Bytes, LengthBytes, Splice;
    txPkt.WriteU8(TAG_GETSET_LOCKKEY);
    txPkt.WroteAtEnd([TAG_GETSET_LOCKKEY]);
    txPkt.AppendVarLength(4);
    txPkt.AppendU32(lockkey);
    assert txPkt.Content() == before + ([TAG_GETSET_LOCKKEY] + [4] + bytes);
  }

  // Building and sealing: what goes on the wire is the frame of RequestDecodes.
  method SealRequest(txPkt: Pkt, name: seq<byte>, value: Option<seq<byte>>, lockkey: uint32) returns (ok: bool)
    requires txPkt.Valid()
    modifies txPkt, txPkt.buffer
    ensures txPkt.Valid()
    ensures ok <==> RequestFits(name, value, lockkey)
    ensures ok ==> txPkt.Content() == Seal(TYPE_GETSET_REQ, EncodeAll(RequestFields(name, value, lockkey)))
  {
    ok := BuildRequest(txPkt, name, value, lockkey);
    if ok {
      txPkt.SealFrame(TYPE_GETSET_REQ);
    }
  }

  class ControlSock {
    var connected: bool

    constructor ()
      ensures !connected
    {
      connected := false;
    }

    method CloseSock()
      modifies this
      ensures !connected
    {
      connected := false;
    }

    // hdhomerun_control_recv_sock: the socket stays open only after a good frame.
    method RecvSock(rxPkt: Pkt, stream: seq<byte>, ready: seq<nat>) returns (ok: bool, frameType: uint16)
      requires rxPkt.Valid()
      modifies this, rxPkt, rxPkt.buffer
      ensures rxPkt.Valid()
      ensures ok <==> Receive(stream, 0, ready).Got?
      ensures ok ==> Receive(stream, 0, ready) == Got(frameType, rxPkt.Content())
      ensures connected == (old(connected) && ok)
    {
      hide Open;
      rxPkt.Reset();
      frameType := 0;
      ok := false;
      var round := 0;
      while true
        invariant rxPkt.Valid() && connected == old(connected) && !ok
        invariant round <= |ready| && rxPkt.start == HEADER_SPACE
        invariant var taken := rxPkt.end - HEADER_SPACE;
                  && taken <= CAPACITY && taken <= |stream| && rxPkt.Content() == stream[..taken]
                  && Receive(stream, 0, ready) == Receive(stream, taken, ready[round..])
        decreases |ready| - round
      {
        if round == |ready| {
          CloseSock();
          return;
        }
        var taken := rxPkt.end - HEADER_SPACE;
        var n := Min(ready[round], Min(rxPkt.limit - rxPkt.end, |stream| - taken));
        round := round + 1;
        if n == 0 {
          CloseSock();
          return;
        }
        rxPkt.Deliver(stream[taken..taken + n]);
        assert stream[..taken] + stream[taken..taken + n] == stream[..taken + n];
        var result;
        result, frameType := rxPkt.OpenFrame();
        if result < 0 {
          CloseSock();
          return;
        }
        if result > 0 {
          ok := true;
          return;
        }
      }
    }
  }
}
