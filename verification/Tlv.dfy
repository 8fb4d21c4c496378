// The tag-length-value payloads of the discover and get/set packets.
module Tlv {
  import opened Bytes

  datatype Field = Field(tag: byte, value: seq<byte>)

  // The two-byte form keeps seven plus eight bits, so a length reads back modulo 32768.
  const MAX_LENGTH: nat := 0x8000

  // ---------------------------------------------------------------- variable-length lengths

  function LengthBytes(v: nat): seq<byte> {
    if v <= 127 then [v] else [0x80 + v % 0x80, v / 0x80 % 0x100]
  }

  // `used` counts the bytes the reader has moved past.
  datatype LengthRead = Length(value: nat, used: nat) | Truncated(used: nat)

  function ParseLength(s: seq<byte>): (r: LengthRead)
    ensures r.used <= |s|
  {
    if |s| < 1 then Truncated(0)
    else if s[0] < 0x80 then Length(s[0], 1)
    else if |s| < 2 then Truncated(1)
    else Length((s[0] as int) - 0x80 + 0x80 * (s[1] as int), 2)
  }

  lemma LengthRoundTrip(v: nat, rest: seq<byte>)
    ensures ParseLength(LengthBytes(v) + rest)
         == Length(if v <= 127 then v else v % MAX_LENGTH, |LengthBytes(v)|)
  {
    var s := LengthBytes(v) + rest;
    if v > 127 {
      assert s[0] == 0x80 + v % 0x80 && s[1] == v / 0x80 % 0x100;
    }
  }

  // ---------------------------------------------------------------- fields

  function Encode(f: Field): (s: seq<byte>)
    ensures |s| >= 2
  {
    [f.tag] + LengthBytes(|f.value|) + f.value
  }

  function EncodeAll(fields: seq<Field>): seq<byte> {
    if fields == [] then [] else Encode(fields[0]) + EncodeAll(fields[1..])
  }

  // One step of the reader. NoField: fewer than two bytes are left, or the value would run past the
  // end. Clipped: the second length byte is missing; the reader's length is then SIZE_MAX and the
  // end of the value wraps round to one byte before the read position.
  datatype FieldRead = NoField | Clipped(tag: byte) | Read(field: Field, rest: seq<byte>)

  function ReadField(s: seq<byte>): (r: FieldRead)
    ensures r.Read? ==> |r.rest| < |s| && s == s[..|s| - |r.rest|] + r.rest
  {
    if |s| < 2 then NoField
    else
      match ParseLength(s[1..])
      case Truncated(_) => Clipped(s[0])
      case Length(n, used) =>
        var tail := s[1 + used..];
        if |tail| < n then NoField else Read(Field(s[0], tail[..n]), tail[n..])
  }

  lemma ReadFieldCases(s: seq<byte>)
    ensures |s| < 2 ==> ReadField(s) == NoField
    ensures |s| >= 2 ==>
              match ParseLength(s[1..])
              case Truncated(used) => used == 1 && |s| == 2 && ReadField(s) == Clipped(s[0])
              case Length(n, used) =>
                var tail := s[1 + used..];
                ReadField(s) == if |tail| < n then NoField else Read(Field(s[0], tail[..n]), tail[n..])
  {
  }

  // The fields a walk over the payload visits.
  function Decode(s: seq<byte>): seq<Field>
    decreases |s|
  {
    match ReadField(s)
    case Read(field, rest) => [field] + Decode(rest)
    case _ => []
  }

  predicate Encodable(fields: seq<Field>) {
    forall i | 0 <= i < |fields| :: |fields[i].value| < MAX_LENGTH
  }

  lemma ReadEncoded(f: Field, rest: seq<byte>)
    requires |f.value| < MAX_LENGTH
    ensures ReadField(Encode(f) + rest) == Read(f, rest)
  {
    var s, n := Encode(f) + rest, |f.value|;
    var used := |LengthBytes(n)|;
    assert s[1..] == LengthBytes(n) + (f.value + rest);
    LengthRoundTrip(n, f.value + rest);
    assert s[1 + used..] == f.value + rest;
  }

  // Any list of fields with lengths the format can express reads back exactly, also when the
  // payload is followed by a remainder that holds no field.
  lemma {:induction false} DecodeEncoded(fields: seq<Field>, rest: seq<byte>)
    requires Encodable(fields) && !ReadField(rest).Read?
    ensures Decode(EncodeAll(fields) + rest) == fields
    decreases |fields|
  {
    if fields == [] {
      assert EncodeAll(fields) + rest == rest;
    } else {
      var tail := EncodeAll(fields[1..]) + rest;
      assert EncodeAll(fields) + rest == Encode(fields[0]) + tail;
      ReadEncoded(fields[0], tail);
      DecodeEncoded(fields[1..], rest);
    }
  }

  lemma RoundTrip(fields: seq<Field>)
    requires Encodable(fields)
    ensures Decode(EncodeAll(fields)) == fields
  {
    DecodeEncoded(fields, []);
    assert EncodeAll(fields) + [] == EncodeAll(fields);
  }

  // The bound is the exact one: a field reads back as written iff its length fits 15 bits, whatever follows.
  lemma ReadsBackIffShort(f: Field, rest: seq<byte>)
    ensures ReadField(Encode(f) + rest) == Read(f, rest) <==> |f.value| < MAX_LENGTH
  {
    if |f.value| < MAX_LENGTH {
      ReadEncoded(f, rest);
    } else {
      var s, n := Encode(f) + rest, |f.value|;
      assert s[1..] == LengthBytes(n) + (f.value + rest);
      LengthRoundTrip(n, f.value + rest);
    }
  }

  lemma {:induction false} EncodeAllAppend(a: seq<Field>, b: seq<Field>)
    ensures EncodeAll(a + b) == EncodeAll(a) + EncodeAll(b)
  {
    if a == [] {
      assert a + b == b;
    } else {
      assert (a + b)[1..] == a[1..] + b;
      EncodeAllAppend(a[1..], b);
    }
  }

  // ---------------------------------------------------------------- on the wire

  // A length is spelled in one byte, or in two of which the first keeps the low seven bits under a set
  // top bit.
  lemma LengthLayout(v: nat)
    requires v < 0x8000
    ensures var s := LengthBytes(v);
            if v <= 127 then |s| == 1 && s[0] == v
            else |s| == 2 && s[0] >= 128 && (s[0] - 128) + 128 * (s[1] as int) == v
  {
  }

  // What the reader takes for a field: a tag, a length in either spelling, and that many bytes, which
  // must all be there.
  lemma ReadFieldMeaning(s: seq<byte>)
    ensures |s| < 2 ==> ReadField(s) == NoField
    ensures |s| >= 2 && s[1] < 128 ==> ReadField(s) == FieldAt(s, 2, s[1])
    ensures |s| == 2 && s[1] >= 128 ==> ReadField(s) == Clipped(s[0])
    ensures |s| > 2 && s[1] >= 128 ==> ReadField(s) == FieldAt(s, 3, (s[1] - 128) + 128 * (s[2] as int))
  {
    if |s| >= 2 {
      var t := s[1..];
      assert t[0] == s[1] && (|s| > 2 ==> t[1] == s[2]);
    }
  }

  function FieldAt(s: seq<byte>, from: nat, n: nat): FieldRead
    requires 0 < from <= |s|
  {
    if |s| - from < n then NoField else Read(Field(s[0], s[from..from + n]), s[from + n..])
  }
}
