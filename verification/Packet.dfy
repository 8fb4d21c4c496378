// The packet buffer of the library: one array and four cursors. Readers and writers move `pos`;
// sealing puts a header into the space kept free before `start` and the CRC after `end`.
module Packet {
  import opened Bytes
  import opened Crc32
  import opened FrameCheck
  import opened Frame
  import opened Tlv

  const BUFFER_SIZE: nat := 3074
  const HEADER_SPACE: nat := 1024

  // An address a reader reports for an unreadable length, as an unsigned machine word.
  const SIZE_MAX: nat := 0xFFFF_FFFF_FFFF_FFFF

  function Max(a: nat, b: nat): nat {
    if a < b then b else a
  }

  // Array contents after writing `bytes` from index `at`.
  function Splice(s: seq<byte>, at: nat, bytes: seq<byte>): (r: seq<byte>)
    requires at + |bytes| <= |s|
    ensures |r| == |s|
  {
    s[..at] + bytes + s[at + |bytes|..]
  }

  // A splice, looked at where it writes and away from there.
  lemma SplicedAt(s: seq<byte>, at: nat, bytes: seq<byte>)
    requires at + |bytes| <= |s|
    ensures Splice(s, at, bytes)[at..at + |bytes|] == bytes
  {
  }

  lemma SplicedAway(s: seq<byte>, at: nat, bytes: seq<byte>, i: nat, j: nat)
    requires at + |bytes| <= |s| && i <= j <= |s| && (j <= at || at + |bytes| <= i)
    ensures Splice(s, at, bytes)[i..j] == s[i..j]
  {
    var r := Splice(s, at, bytes);
    assert forall k | i <= k < j :: r[k] == s[k];
  }

  lemma HeaderSpliced(s: seq<byte>, at: nat, end: nat, x: seq<byte>, y: seq<byte>)
    requires |x| == |y| == 2 && at + 4 <= end <= |s|
    ensures Splice(Splice(s, at, x), at + 2, y)[at..end] == x + y + s[at + 4..end]
  {
    hide Splice;
    var first := Splice(s, at, x);
    var both := Splice(first, at + 2, y);
    SplicedAt(s, at, x);
    SplicedAt(first, at + 2, y);
    SplicedAway(s, at, x, at + 4, end);
    SplicedAway(first, at + 2, y, at + 4, end);
    SplicedAway(first, at + 2, y, at, at + 2);
    assert both[at..end] == both[at..at + 2] + both[at + 2..at + 4] + both[at + 4..end];
  }

  lemma SubSlice(s: seq<byte>, from: nat, to: nat, i: nat, j: nat)
    requires from <= to <= |s| && i <= j <= to - from
    ensures s[from..to][i..j] == s[from + i..from + j]
  {
    var x, y := s[from..to][i..j], s[from + i..from + j];
    assert |x| == |y| && forall k | 0 <= k < |x| :: x[k] == y[k];
  }

  class Pkt {
    const buffer: array<byte>
    var pos: nat
    var start: nat
    var end: nat
    var limit: nat

    ghost predicate Valid()
      reads this
    {
      && buffer.Length == BUFFER_SIZE
      && limit == BUFFER_SIZE - 4
      && start <= pos <= end <= BUFFER_SIZE
    }

    // The bytes between start and end: a payload before sealing and after opening, else a frame.
    ghost function Content(): seq<byte>
      requires Valid()
      reads this, buffer
    {
      buffer[start..end]
    }

    // What a reader has still in front of it.
    ghost function Unread(): seq<byte>
      requires Valid()
      reads this, buffer
    {
      buffer[pos..end]
    }

    constructor ()
      ensures Valid() && fresh(buffer)
      ensures start == pos == end == HEADER_SPACE
    {
      buffer := new byte[BUFFER_SIZE](i => 0);
      limit := BUFFER_SIZE - 4;
      start := HEADER_SPACE;
      end := HEADER_SPACE;
      pos := HEADER_SPACE;
    }

    method Reset()
      requires Valid()
      modifies this
      ensures Valid() && start == pos == end == HEADER_SPACE
    {
      limit := BUFFER_SIZE - 4;
      start := HEADER_SPACE;
      end := start;
      pos := start;
    }

    // ---------------------------------------------------------------- readers

    method ReadU8() returns (v: byte)
      requires Valid() && pos + 1 <= end
      modifies this`pos
      ensures Valid() && pos == old(pos) + 1
      ensures v == old(Unread())[0]
    {
      v := buffer[pos];
      pos := pos + 1;
    }

    method ReadU16() returns (v: uint16)
      requires Valid() && pos + 2 <= end
      modifies this`pos
      ensures Valid() && pos == old(pos) + 2
      ensures v == U16(old(Unread())[0], old(Unread())[1])
    {
      var hi, lo := buffer[pos], buffer[pos + 1];
      pos := pos + 2;
      v := U16(hi, lo);
    }

    method ReadU32() returns (v: uint32)
      requires Valid() && pos + 4 <= end
      modifies this`pos
      ensures Valid() && pos == old(pos) + 4
      ensures v == U32(old(Unread())[..4])
    {
      var a, b, c, d := buffer[pos], buffer[pos + 1], buffer[pos + 2], buffer[pos + 3];
      pos := pos + 4;
      v := U32([a, b, c, d]);
      assert old(Unread())[..4] == [a, b, c, d];
    }

    // None stands for the reader's (size_t)-1.
    method ReadVarLength() returns (length: Option<nat>)
      requires Valid()
      modifies this`pos
      ensures Valid() && pos == old(pos) + ParseLength(old(Unread())).used
      ensures match ParseLength(old(Unread()))
              case Length(n, _) => length == Some(n)
              case Truncated(_) => length == None
    {
      if pos + 1 > end {
        return None;
      }
      var n: nat := buffer[pos];
      pos := pos + 1;
      if n >= 0x80 {
        if pos + 1 > end {
          return None;
        }
        n := n - 0x80 + 0x80 * (buffer[pos] as int);
        pos := pos + 1;
      }
      return Some(n);
    }

    twostate lemma Moved(n: nat)
      requires old(Valid()) && Valid() && pos == old(pos) + n && end == old(end) && buffer[..] == old(buffer[..])
      ensures n <= |old(Unread())| && Unread() == old(Unread())[n..]
    {
      assert Unread() == buffer[..][pos..end];
    }

    // What a reader of fields reports of what it read.
    ghost predicate Reported(read: FieldRead, was: nat, next: Option<nat>, tag: byte, length: nat)
      requires Valid()
      reads this, buffer
    {
      match read
      case NoField => next == None
      case Clipped(t) => tag == t && length == SIZE_MAX && pos == end == was + 2 && next == Some(pos - 1)
      case Read(field, rest) =>
        tag == field.tag && length == |field.value| && next == Some(pos + length) && Unread() == field.value + rest
    }

    // Returns the position just behind the value; `pos` is left on its first byte. With a clipped
    // length the pointer sum wraps and the result is one byte before `pos`.
    method ReadTlv() returns (next: Option<nat>, tag: byte, length: nat)
      requires Valid()
      modifies this`pos
      ensures Valid() && Reported(ReadField(old(Unread())), old(pos), next, tag, length)
    {
      hide ParseLength, ReadField, Reported, Unread;
      ghost var s, was := Unread(), pos;
      tag, length, next := 0, 0, None;
      Remaining();
      if pos + 2 <= end {
        tag := ReadU8();
        Moved(1);
        var n := ReadVarLength();
        Moved(1 + ParseLength(s[1..]).used);
        if n == None {
          length := SIZE_MAX;
          next := Some(pos - 1);
        } else {
          length := n.value;
          if pos + length <= end {
            next := Some(pos + length);
          }
        }
        ReportsLength(s, was, next, tag, length, n);
      } else {
        ReportsNothing(s, was, tag, length);
      }
    }

    lemma Remaining()
      requires Valid()
      ensures |Unread()| == end - pos
    {
    }

    lemma ReportsNothing(s: seq<byte>, was: nat, tag: byte, length: nat)
      requires Valid() && |s| < 2
      ensures Reported(ReadField(s), was, None, tag, length)
    {
    }

    lemma ReportsLength(s: seq<byte>, was: nat, next: Option<nat>, tag: byte, length: nat, n: Option<nat>)
      requires Valid() && |s| >= 2 && tag == s[0] && end == was + |s|
      requires var read := ParseLength(s[1..]);
               && pos == was + 1 + read.used && Unread() == s[1 + read.used..]
               && n == match read case Length(value, _) => Some(value) case Truncated(_) => None
      requires n == None ==> length == SIZE_MAX && next == Some(pos - 1)
      requires n != None ==> length == n.value && next == if pos + length <= end then Some(pos + length) else None
      ensures Reported(ReadField(s), was, next, tag, length)
    {
      hide ParseLength, ReadField;
      ReadFieldCases(s);
    }

    // ---------------------------------------------------------------- writers

    twostate predicate Wrote(bytes: seq<byte>)
      requires old(Valid()) && Valid()
      requires old(pos) + |bytes| <= buffer.Length
      reads this, buffer
    {
      && start == old(start) && limit == old(limit)
      && pos == old(pos) + |bytes|
      && end == Max(old(end), pos)
      && buffer[..] == Splice(old(buffer[..]), old(pos), bytes)
    }

    // Writing where the content ends appends to it.
    twostate lemma WroteAtEnd(bytes: seq<byte>)
      requires old(Valid()) && Valid()
      requires old(pos) == old(end) && old(pos) + |bytes| <= buffer.Length
      requires Wrote(bytes)
      ensures pos == end == old(end) + |bytes|
      ensures Content() == old(Content()) + bytes
    {
      assert buffer[start..end] == buffer[..][start..end];
    }

    method WriteU8(v: byte)
      requires Valid() && pos + 1 <= buffer.Length
      modifies this`pos, this`end, buffer
      ensures Valid() && Wrote([v])
    {
      buffer[pos] := v;
      pos := pos + 1;
      if pos > end {
        end := pos;
      }
    }

    method WriteU16(v: uint16)
      requires Valid() && pos + 2 <= buffer.Length
      modifies this`pos, this`end, buffer
      ensures Valid() && Wrote(U16Bytes(v))
    {
      buffer[pos] := v / 0x100;
      pos := pos + 1;
      buffer[pos] := v % 0x100;
      pos := pos + 1;
      if pos > end {
        end := pos;
      }
    }

    method WriteU32(v: uint32)
      requires Valid() && pos + 4 <= buffer.Length
      modifies this`pos, this`end, buffer
      ensures Valid() && Wrote(U32Bytes(v))
    {
      buffer[pos] := v / 0x100_0000;
      pos := pos + 1;
      buffer[pos] := v / 0x1_0000 % 0x100;
      pos := pos + 1;
      buffer[pos] := v / 0x100 % 0x100;
      pos := pos + 1;
      buffer[pos] := v % 0x100;
      pos := pos + 1;
      if pos > end {
        end := pos;
      }
    }

    method WriteVarLength(v: nat)
      requires Valid() && pos + |LengthBytes(v)| <= buffer.Length
      modifies this`pos, this`end, buffer
      ensures Valid() && Wrote(LengthBytes(v))
    {
      if v <= 127 {
        buffer[pos] := v;
        pos := pos + 1;
      } else {
        buffer[pos] := 0x80 + v % 0x80;
        pos := pos + 1;
        buffer[pos] := v / 0x80 % 0x100;
        pos := pos + 1;
      }
      if pos > end {
        end := pos;
      }
    }

    method WriteMem(mem: seq<byte>)
      requires Valid() && pos + |mem| <= buffer.Length
      modifies this`pos, this`end, buffer
      ensures Valid() && Wrote(mem)
    {
      forall i | 0 <= i < |mem| {
        buffer[pos + i] := mem[i];
      }
      pos := pos + |mem|;
      if pos > end {
        end := pos;
      }
    }

    // One field, written behind everything else.
    method AppendField(tag: byte, value: seq<byte>)
      requires Valid() && pos == end && end + 3 + |value| <= buffer.Length
      modifies this`pos, this`end, buffer
      ensures Valid() && pos == end && end == old(end) + |Encode(Field(tag, value))|
      ensures Content() == old(Content()) + Encode(Field(tag, value))
    {
      ghost var before := Content();
      WriteU8(tag);
      WroteAtEnd([tag]);
      AppendVarLength(|value|);
      AppendMem(value);
      assert before + [tag] + LengthBytes(|value|) + value == before + ([tag] + LengthBytes(|value|) + value);
    }

    method AppendU32(v: uint32)
      requires Valid() && pos == end && end + 4 <= buffer.Length
      modifies this`pos, this`end, buffer
      ensures Valid() && pos == end && end == old(end) + 4
      ensures Content() == old(Content()) + U32Bytes(v)
    {
      WriteU32(v);
      WroteAtEnd(U32Bytes(v));
    }

    method AppendVarLength(v: nat)
      requires Valid() && pos == end && end + |LengthBytes(v)| <= buffer.Length
      modifies this`pos, this`end, buffer
      ensures Valid() && pos == end && end == old(end) + |LengthBytes(v)|
      ensures Content() == old(Content()) + LengthBytes(v)
    {
      WriteVarLength(v);
      WroteAtEnd(LengthBytes(v));
    }

    method AppendMem(mem: seq<byte>)
      requires Valid() && pos == end && end + |mem| <= buffer.Length
      modifies this`pos, this`end, buffer
      ensures Valid() && pos == end && end == old(end) + |mem|
      ensures Content() == old(Content()) + mem
    {
      WriteMem(mem);
      WroteAtEnd(mem);
    }

    // The socket layer stores received bytes at the end of the content.
    method Deliver(bytes: seq<byte>)
      requires Valid() && end + |bytes| <= limit
      modifies this`end, buffer
      ensures Valid() && end == old(end) + |bytes|
      ensures Content() == old(Content()) + bytes
    {
      forall i | 0 <= i < |bytes| {
        buffer[end + i] := bytes[i];
      }
      end := end + |bytes|;
      assert buffer[start..end] == buffer[start..end - |bytes|] + buffer[end - |bytes|..end];
    }

    // ---------------------------------------------------------------- frames

    method SealFrame(frameType: uint16)
      requires Valid() && start >= 4 && end + 4 <= buffer.Length
      modifies this`pos, this`start, this`end, buffer
      ensures Valid() && pos == start == old(start) - 4 && end == old(end) + 4
      ensures Content() == Seal(frameType, old(Content()))
    {
      PutHeader(frameType);
      PutTrailer();
    }

    // First half of sealing: the header goes into the space before the payload.
    method PutHeader(frameType: uint16)
      requires Valid() && start >= 4
      modifies this`pos, this`start, this`end, buffer
      ensures Valid() && start == old(start) - 4 && end == old(end)
      ensures Content() == Body(frameType, old(Content()))
    {
      ghost var before := buffer[..];
      var length := end - start;
      start := start - 4;
      pos := start;
      WriteU16(frameType);
      WriteU16(length % 0x1_0000);
      HeaderSpliced(before, start, end, U16Bytes(frameType), U16Bytes(length % 0x1_0000));
      assert buffer[start..end] == buffer[..][start..end];
      assert before[start + 4..end] == old(Content());
    }

    // Second half: the CRC over header and payload goes behind them, lowest byte first.
    method PutTrailer()
      requires Valid() && end + 4 <= buffer.Length
      modifies this`pos, this`end, buffer
      ensures Valid() && pos == start && end == old(end) + 4
      ensures Content() == old(Content()) + LeBytes(Crc(old(Content())))
    {
      var crc := CalcCrc(buffer, start, end);
      var t := LeBytes(crc);
      StoreFour(t);
      end := end + 4;
      pos := start;
      assert buffer[start..end] == buffer[start..end - 4] + buffer[end - 4..end];
    }

    method StoreFour(t: seq<byte>)
      requires Valid() && end + 4 <= buffer.Length && |t| == 4
      modifies buffer
      ensures buffer[start..end] == old(buffer[start..end]) && buffer[end..end + 4] == t
    {
      buffer[end] := t[0];
      buffer[end + 1] := t[1];
      buffer[end + 2] := t[2];
      buffer[end + 3] := t[3];
    }

    method ReadHeader() returns (frameType: uint16, length: uint16)
      requires Valid() && pos == start && start + 4 <= end
      modifies this`pos
      ensures Valid() && pos == start + 4
      ensures frameType == U16(Content()[0], Content()[1]) && length == U16(Content()[2], Content()[3])
    {
      frameType := ReadU16();
      length := ReadU16();
    }

    // Whether the CRC of the n bytes from start equals the one stored behind them.
    method TrailerMatches(n: nat) returns (ok: bool)
      requires Valid() && start + n + 4 <= end
      ensures ok == Matches(Content()[..n], Content()[n..n + 4])
    {
      var calcCrc := CalcCrc(buffer, start, start + n);
      SubSlice(buffer[..], start, end, 0, n);
      SubSlice(buffer[..], start, end, n, n + 4);
      ok := CompareTrailer(calcCrc, buffer[start + n..start + n + 4], Content()[..n]);
    }

    method CompareTrailer(calcCrc: bv32, t: seq<byte>, ghost body: seq<byte>) returns (ok: bool)
      requires |t| == 4 && calcCrc == Crc(body)
      ensures ok == Matches(body, t)
    {
      var packetCrc := Le32(t);
      ok := calcCrc == packetCrc;
    }

    // Leaves just the payload of an accepted frame between the cursors.
    method Strip(length: nat)
      requires Valid() && start + 8 + length <= end
      modifies this`pos, this`start, this`end
      ensures Valid() && start == old(start) + 4 && end == start + length && pos == start
      ensures Content() == old(Content())[4..4 + length]
    {
      start := start + 4;
      end := start + length;
      pos := start;
    }

    method OpenFrame() returns (result: int, frameType: uint16)
      requires Valid()
      modifies this`pos, this`start, this`end
      ensures Valid()
      ensures Open(old(Content())) == Incomplete ==> result == 0 && pos == start
      ensures Open(old(Content())) == Corrupt ==> result == -1
      ensures !Open(old(Content())).Accepted? ==> start == old(start) && end == old(end)
      ensures Open(old(Content())).Accepted? ==>
                && result == 1 && frameType == Open(old(Content())).frameType
                && Content() == Open(old(Content())).payload
                && start == old(start) + 4 && pos == start
    {
      hide Matches;
      ghost var s := Content();
      frameType, result := 0, 0;
      pos := start;
      if pos + 4 <= end {
        var length: nat;
        frameType, length := ReadHeader();
        pos := pos + length;
        if pos + 4 > end {
          pos := start;
        } else {
          var ok := TrailerMatches(4 + length);
          pos := pos + 4;
          if ok {
            Strip(length);
            result := 1;
          } else {
            result := -1;
          }
        }
      }
    }
  }
}
