// The frame format shared by the discover and control protocols: a big-endian type and payload
// length, the payload, and the CRC of all of that in little-endian order.
module Frame {
  import opened Bytes
  import opened Crc32
  import opened FrameCheck

  datatype Opening = Incomplete | Corrupt | Accepted(frameType: uint16, payload: seq<byte>)

  function U16Bytes(v: uint16): (s: seq<byte>)
    ensures |s| == 2
  {
    [v / 0x100, v % 0x100]
  }

  function U16(hi: byte, lo: byte): uint16 {
    hi * 0x100 + lo
  }

  function U32Bytes(v: uint32): (s: seq<byte>)
    ensures |s| == 4
  {
    [v / 0x100_0000, v / 0x1_0000 % 0x100, v / 0x100 % 0x100, v % 0x100]
  }

  function U32(s: seq<byte>): uint32
    requires |s| == 4
  {
    var high: int, low: int := U16(s[0], s[1]), U16(s[2], s[3]);
    high * 0x1_0000 + low
  }

  lemma U32RoundTrip(v: uint32)
    ensures U32(U32Bytes(v)) == v
  {
    assert v / 0x1_0000 / 0x100 == v / 0x100_0000;
    assert v / 0x100 / 0x100 == v / 0x1_0000;
  }

  // Type, length and payload; the 16-bit length field keeps the length modulo 65536.
  function Body(frameType: uint16, payload: seq<byte>): seq<byte> {
    U16Bytes(frameType) + U16Bytes(|payload| % 0x1_0000) + payload
  }

  function Seal(frameType: uint16, payload: seq<byte>): (s: seq<byte>)
    ensures |s| == |payload| + 8
  {
    Body(frameType, payload) + LeBytes(Crc(Body(frameType, payload)))
  }

  // What the receiver makes of the bytes received so far.
  function Open(s: seq<byte>): Opening {
    if |s| < 4 then Incomplete
    else
      var length := U16(s[2], s[3]);
      if |s| < 4 + length + 4 then Incomplete
      else if !Matches(s[..4 + length], s[4 + length..8 + length]) then Corrupt
      else Accepted(U16(s[0], s[1]), s[4..4 + length])
  }

  lemma HeaderRoundTrip(frameType: uint16, payload: seq<byte>)
    requires |payload| < 0x1_0000
    ensures var b := Body(frameType, payload);
            && |b| == 4 + |payload| && b[4..] == payload
            && U16(b[0], b[1]) == frameType && U16(b[2], b[3]) == |payload|
  {
    var b := Body(frameType, payload);
    Number(frameType);
    Number(|payload|);
    hide U16Bytes, U16;
    assert b[..2] == U16Bytes(frameType) && b[2..4] == U16Bytes(|payload|) && b[4..] == payload;
    assert b[0] == b[..2][0] && b[1] == b[..2][1] && b[2] == b[2..4][0] && b[3] == b[2..4][1];
  }

  lemma Number(v: uint16)
    ensures U16(U16Bytes(v)[0], U16Bytes(v)[1]) == v
  {
  }

  lemma BodyOfHeader(s: seq<byte>)
    requires 4 <= |s| && |s| == 4 + U16(s[2], s[3])
    ensures Body(U16(s[0], s[1]), s[4..]) == s
  {
    Halves(s[0], s[1]);
    Halves(s[2], s[3]);
    hide U16, U16Bytes;
    assert s == [s[0], s[1]] + [s[2], s[3]] + s[4..];
  }

  lemma Halves(hi: byte, lo: byte)
    ensures U16Bytes(U16(hi, lo)) == [hi, lo]
  {
  }

  // Opening accepts exactly the byte strings that start with a sealed frame, and hands back what
  // was sealed, whatever follows the frame.
  lemma OpenIffSealed(s: seq<byte>, frameType: uint16, payload: seq<byte>)
    requires |payload| < 0x1_0000
    ensures Open(s) == Accepted(frameType, payload) <==> Seal(frameType, payload) <= s
  {
    if Seal(frameType, payload) <= s {
      SealedOpens(s, frameType, payload);
    }
    if Open(s) == Accepted(frameType, payload) {
      OpenedIsSealed(s);
    }
  }

  lemma SealedOpens(s: seq<byte>, frameType: uint16, payload: seq<byte>)
    requires |payload| < 0x1_0000 && Seal(frameType, payload) <= s
    ensures Open(s) == Accepted(frameType, payload)
  {
    var n := |payload|;
    var body := Body(frameType, payload);
    HeaderRoundTrip(frameType, payload);
    assert s[..4 + n] == body && s[4 + n..8 + n] == LeBytes(Crc(body));
    assert s[0] == body[0] && s[1] == body[1] && s[2] == body[2] && s[3] == body[3];
    assert s[4..4 + n] == s[..4 + n][4..];
    MatchesOnlyTheCrc(body, s[4 + n..8 + n]);
  }

  lemma OpenedIsSealed(s: seq<byte>)
    requires Open(s).Accepted?
    ensures Seal(Open(s).frameType, Open(s).payload) <= s
  {
    var n := U16(s[2], s[3]);
    BodyOfHeader(s[..4 + n]);
    assert s[..4 + n][4..] == s[4..4 + n];
    MatchesOnlyTheCrc(s[..4 + n], s[4 + n..8 + n]);
    assert s[..8 + n] == s[..4 + n] + s[4 + n..8 + n];
  }

  // No proper prefix of a frame is taken for a frame or for a damaged one.
  lemma ProperPrefixIncomplete(frameType: uint16, payload: seq<byte>, s: seq<byte>)
    requires |payload| < 0x1_0000
    requires s < Seal(frameType, payload)
    ensures Open(s) == Incomplete
  {
    var f := Seal(frameType, payload);
    if |s| >= 4 {
      assert s[2] == f[2] && s[3] == f[3];
      assert f[2..4] == U16Bytes(|payload|);
    }
  }

  // The length of the frame at the start of s, and the frame itself.
  function FrameLength(s: seq<byte>): nat
    requires |s| >= 4
  {
    8 + U16(s[2], s[3])
  }

  lemma OpenByMatch(s: seq<byte>)
    requires |s| >= 4 && |s| >= FrameLength(s)
    ensures var f := s[..FrameLength(s)];
            Open(s) == Corrupt <==> !Matches(f[..|f| - 4], f[|f| - 4..])
  {
    var n := FrameLength(s);
    assert s[..n][..n - 4] == s[..n - 4] && s[..n][n - 4..] == s[n - 4..n];
  }

  // Damage to an accepted frame that leaves the length field alone and stays inside a window of 32
  // consecutive bits is always reported.
  lemma BurstIsCorrupt(s: seq<byte>, d: seq<byte>, from: nat, to: nat)
    requires Open(s).Accepted?
    requires |d| == |s| && d[2] == s[2] && d[3] == s[3]
    requires d[..FrameLength(s)] != s[..FrameLength(s)]
    requires BurstOnly(d[..FrameLength(s)], s[..FrameLength(s)], from, to)
    ensures Open(d) == Corrupt
  {
    hide Matches, BurstOnly;
    OpenByMatch(s);
    OpenByMatch(d);
    BurstBreaksMatch(d[..FrameLength(s)], s[..FrameLength(s)], from, to);
  }

  // The same for whole bytes: at most four consecutive damaged bytes of type, payload or trailer.
  lemma FourBytesDamaged(s: seq<byte>, d: seq<byte>, at: nat)
    requires Open(s).Accepted?
    requires |d| == |s| && d[2] == s[2] && d[3] == s[3]
    requires at + 4 <= FrameLength(s)
    requires d[..FrameLength(s)] != s[..FrameLength(s)]
    requires d[..at] == s[..at] && d[at + 4..] == s[at + 4..]
    ensures Open(d) == Corrupt
  {
    var n := FrameLength(s);
    var x, y := d[..n], s[..n];
    assert x[..at] == d[..at] && y[..at] == s[..at];
    assert x[at + 4..] == d[at + 4..][..n - at - 4] && y[at + 4..] == s[at + 4..][..n - at - 4];
    FourByteBurst(x, y, at);
    BurstIsCorrupt(s, d, 8 * at, 8 * (at + 4));
  }

  // Where things are on the wire: type and length high byte first, then the payload, then the CRC of
  // all that low byte first.
  lemma SealLayout(frameType: uint16, payload: seq<byte>)
    requires |payload| < 0x1_0000
    ensures var s, n := Seal(frameType, payload), |payload|;
            && |s| == n + 8
            && 0x100 * (s[0] as int) + s[1] == frameType && 0x100 * (s[2] as int) + s[3] == n
            && s[4..4 + n] == payload && s[4 + n..] == LeBytes(Crc(s[..4 + n]))
  {
    var s, n, body := Seal(frameType, payload), |payload|, Body(frameType, payload);
    HeaderRoundTrip(frameType, payload);
    assert s[..4 + n] == body && s[4 + n..] == LeBytes(Crc(body));
    assert body[0] == s[0] && body[1] == s[1] && body[2] == s[2] && body[3] == s[3];
    assert s[4..4 + n] == body[4..];
  }

  // When opening waits for more, says the frame is damaged, or accepts it: the length counts first,
  // then the trailer.
  lemma OpenCases(s: seq<byte>)
    ensures |s| < 4 ==> Open(s) == Incomplete
    ensures |s| >= 4 ==>
              var n := 0x100 * (s[2] as int) + s[3];
              && (|s| < n + 8 ==> Open(s) == Incomplete)
              && (|s| >= n + 8 ==>
                    Open(s) == if s[4 + n..8 + n] == LeBytes(Crc(s[..4 + n]))
                               then Accepted(0x100 * (s[0] as int) + s[1], s[4..4 + n]) else Corrupt)
  {
    if |s| >= 4 {
      var n: int := U16(s[2], s[3]);
      assert n == 0x100 * (s[2] as int) + s[3];
      if |s| >= n + 8 {
        MatchesOnlyTheCrc(s[..4 + n], s[4 + n..8 + n]);
        hide Matches, LeBytes, Crc;
      }
    }
  }
}
