// Plot samples arrive as hexadecimal text, each number followed by a space, and are decoded into
// pairs of 16-bit integers stored over the very text they are read from.
module PlotSample {
  import opened Bytes

  const SPACE: byte := 0x20
  const MINUS: byte := 0x2D

  datatype Sample = Sample(re: int, im: int)

  // The C library's hexadecimal conversion of one token; None when it does not convert.
  type Scanner = seq<byte> -> Option<uint32>

  // The negation of a hexadecimal digit, in 32 bits.
  const LEAST_NEGATED: uint32 := 0xFFFF_FFF1

  // All that is assumed of it: nothing converts from no characters or from a byte that is neither
  // digit, sign nor space; one character is at most a digit, and two are at most two digits or one
  // behind a sign.
  ghost predicate Hexadecimal(scan: Scanner) {
    && scan([]) == None
    && (forall t | t != [] && t[0] == 0xFF :: scan(t) == None)
    && (forall t | |t| == 1 && scan(t).Some? :: scan(t).value < 0x10)
    && (forall t | |t| == 2 && scan(t).Some? ::
          scan(t).value < 0x100 || (MINUS in t && scan(t).value >= LEAST_NEGATED))
  }

  // ---------------------------------------------------------------- the numbers

  // A 12-bit two's complement number.
  function Signed12(v: nat): int
    requires v < 0x1000
  {
    if v < 0x800 then v else v - 0x1000
  }

  function SampleOf(raw: uint32): Sample {
    Sample(Signed12(raw / 0x1000 % 0x1000), Signed12(raw % 0x1000))
  }

  // The source's sign extension: bits 12 to 15 are set when bit 11 is.
  function Extend(v: nat): uint16
    requires v < 0x1000
  {
    if v / 0x800 % 2 == 1 then v + 0xF000 else v
  }

  // A 16-bit two's complement number in little-endian memory.
  function ReadInt16(lo: byte, hi: byte): int {
    if hi < 0x80 then lo + 0x100 * (hi as int) else lo + 0x100 * (hi as int) - 0x1_0000
  }

  lemma ExtendIsSigned(v: nat)
    requires v < 0x1000
    ensures ReadInt16(Extend(v) % 0x100, Extend(v) / 0x100) == Signed12(v)
  {
  }

  function SampleBytes(raw: uint32): (s: seq<byte>)
    ensures |s| == 4
  {
    var re, im := Extend(raw / 0x1000 % 0x1000), Extend(raw % 0x1000);
    [re % 0x100, re / 0x100, im % 0x100, im / 0x100]
  }

  // The sample array as the caller finds it in memory.
  function SampleAt(mem: seq<byte>, i: nat): Sample
    requires 4 * i + 4 <= |mem|
  {
    Sample(ReadInt16(mem[4 * i], mem[4 * i + 1]), ReadInt16(mem[4 * i + 2], mem[4 * i + 3]))
  }

  function Samples(mem: seq<byte>, count: nat): (s: seq<Sample>)
    requires 4 * count <= |mem|
    ensures |s| == count
  {
    if count == 0 then [] else Samples(mem, count - 1) + [SampleAt(mem, count - 1)]
  }

  lemma StoredSample(mem: seq<byte>, i: nat, raw: uint32)
    requires 4 * i + 4 <= |mem| && mem[4 * i..4 * i + 4] == SampleBytes(raw)
    ensures SampleAt(mem, i) == SampleOf(raw)
  {
    ExtendIsSigned(raw / 0x1000 % 0x1000);
    ExtendIsSigned(raw % 0x1000);
    var s := mem[4 * i..4 * i + 4];
    assert s[0] == mem[4 * i] && s[1] == mem[4 * i + 1] && s[2] == mem[4 * i + 2] && s[3] == mem[4 * i + 3];
  }

  // A twelve-bit two's complement field.
  function Twelve(v: int): nat
    requires -0x800 <= v < 0x800
  {
    if v < 0 then v + 0x1000 else v
  }

  // Which bits are which: the imaginary part is in the low twelve, the real part in the twelve above
  // them, and the top eight do not matter. Memory then holds the two numbers.
  lemma SampleLayout(mem: seq<byte>, i: nat, re: int, im: int, top: nat)
    requires -2048 <= re <= 2047 && -2048 <= im <= 2047 && top < 0x100
    requires 4 * i + 4 <= |mem|
    requires mem[4 * i..4 * i + 4] == SampleBytes(top * 0x100_0000 + Twelve(re) * 0x1000 + Twelve(im))
    ensures SampleAt(mem, i) == Sample(re, im)
    ensures (mem[4 * i] as int) + 0x100 * (mem[4 * i + 1] as int) == (re + 0x1_0000) % 0x1_0000
    ensures (mem[4 * i + 2] as int) + 0x100 * (mem[4 * i + 3] as int) == (im + 0x1_0000) % 0x1_0000
    ensures SampleOf(top * 0x100_0000 + Twelve(re) * 0x1000 + Twelve(im)) == Sample(re, im)
  {
    var raw := top * 0x100_0000 + Twelve(re) * 0x1000 + Twelve(im);
    Fields(top, Twelve(re), Twelve(im));
    StoredSample(mem, i, raw);
    var s := mem[4 * i..4 * i + 4];
    assert s[0] == mem[4 * i] && s[1] == mem[4 * i + 1] && s[2] == mem[4 * i + 2] && s[3] == mem[4 * i + 3];
  }

  lemma Fields(top: nat, re: nat, im: nat)
    requires top < 0x100 && re < 0x1000 && im < 0x1000
    ensures var raw := top * 0x100_0000 + re * 0x1000 + im;
            raw < 0x1_0000_0000 && raw / 0x1000 % 0x1000 == re && raw % 0x1000 == im
  {
    var raw := top * 0x100_0000 + re * 0x1000 + im;
    assert raw == (top * 0x1000 + re) * 0x1000 + im;
    assert raw / 0x1000 == top * 0x1000 + re;
  }

  lemma {:induction false} SamplesLocal(mem: seq<byte>, mem': seq<byte>, count: nat)
    requires 4 * count <= |mem| == |mem'| && forall j | 0 <= j < 4 * count :: mem[j] == mem'[j]
    ensures Samples(mem, count) == Samples(mem', count)
  {
    if count > 0 {
      SamplesLocal(mem, mem', count - 1);
    }
  }

  // ---------------------------------------------------------------- decoding a copy

  // The first space, or the length of the text.
  function FirstSpace(text: seq<byte>): (k: nat)
    ensures k <= |text|
    ensures k < |text| ==> text[k] == SPACE
    ensures forall j | 0 <= j < k :: text[j] != SPACE
  {
    if text == [] || text[0] == SPACE then 0 else 1 + FirstSpace(text[1..])
  }

  // The text starts with a token that is followed by a space and has a value.
  predicate Converts(scan: Scanner, text: seq<byte>) {
    var k := FirstSpace(text);
    k < |text| && scan(text[..k]).Some?
  }

  function First(scan: Scanner, text: seq<byte>): Sample
    requires Converts(scan, text)
  {
    SampleOf(scan(text[..FirstSpace(text)]).value)
  }

  function After(scan: Scanner, text: seq<byte>): (rest: seq<byte>)
    requires Converts(scan, text)
    ensures |rest| == |text| - FirstSpace(text) - 1
  {
    text[FirstSpace(text) + 1..]
  }

  // What the text means: the samples before the first token without a space or without a value.
  function Decode(scan: Scanner, text: seq<byte>): seq<Sample>
    decreases |text|
  {
    if !Converts(scan, text) then [] else [First(scan, text)] + Decode(scan, After(scan, text))
  }

  // A text of tokens, each followed by a space.
  function Spaced(tokens: seq<seq<byte>>): seq<byte> {
    if tokens == [] then [] else tokens[0] + [SPACE] + Spaced(tokens[1..])
  }

  // Text that ends the list: no space in it, or what is before the first one does not convert.
  ghost predicate Ends(scan: Scanner, text: seq<byte>) {
    0x20 !in text || exists k :: 0 <= k < |text| && text[k] == 0x20 && 0x20 !in text[..k] && scan(text[..k]) == None
  }

  lemma EndsDecode(scan: Scanner, rest: seq<byte>)
    requires Ends(scan, rest)
    ensures Decode(scan, rest) == []
  {
    var k := FirstSpace(rest);
    if k < |rest| {
      assert rest[k] == 0x20;
      var j :| 0 <= j < |rest| && rest[j] == 0x20 && 0x20 !in rest[..j] && scan(rest[..j]) == None;
      FirstSpaceAt(rest, j);
    }
  }

  lemma OneToken(scan: Scanner, token: seq<byte>, raw: uint32, rest: seq<byte>)
    requires 0x20 !in token && scan(token) == Some(raw)
    ensures Decode(scan, token + [SPACE] + rest) == [SampleOf(raw)] + Decode(scan, rest)
  {
    hide FirstSpace;
    var text, k := token + [SPACE] + rest, |token|;
    assert text[k] == SPACE && text[..k] == token && text[k + 1..] == rest;
    FirstSpaceAt(text, k);
  }

  // It means one sample for each token, in order, up to the end of the list.
  lemma {:induction false} DecodeSpaced(scan: Scanner, tokens: seq<seq<byte>>, raws: seq<uint32>, rest: seq<byte>)
    requires |tokens| == |raws| && Ends(scan, rest)
    requires forall i | 0 <= i < |tokens| :: 0x20 !in tokens[i] && scan(tokens[i]) == Some(raws[i])
    ensures var d := Decode(scan, Spaced(tokens) + rest);
            |d| == |raws| && forall i | 0 <= i < |d| :: d[i] == SampleOf(raws[i])
    decreases |tokens|
  {
    hide Decode, Ends, SampleOf;
    if tokens == [] {
      assert Spaced(tokens) + rest == rest;
      EndsDecode(scan, rest);
    } else {
      var tail := Spaced(tokens[1..]) + rest;
      assert Spaced(tokens) + rest == tokens[0] + [SPACE] + tail;
      OneToken(scan, tokens[0], raws[0], tail);
      DecodeSpaced(scan, tokens[1..], raws[1..], rest);
    }
  }

  // How far reading is ahead of writing after the next sample, if it was `slack` bytes ahead.
  function Ahead(text: seq<byte>, slack: nat): int {
    slack + FirstSpace(text) + 1 - 4
  }

  // What decoding over the text itself yields: the first sample whose four bytes reach into the text
  // still to be read is the last.
  function DecodeWithin(scan: Scanner, text: seq<byte>, slack: nat): seq<Sample>
    decreases |text|
  {
    if !Converts(scan, text) then []
    else
      [First(scan, text)]
      + if Ahead(text, slack) >= 0 then DecodeWithin(scan, After(scan, text), Ahead(text, slack)) else []
  }

  // Every sample that another one follows fits into the text already read.
  predicate Roomy(scan: Scanner, text: seq<byte>, slack: nat)
    decreases |text|
  {
    Converts(scan, text) ==>
      if Ahead(text, slack) >= 0 then Roomy(scan, After(scan, text), Ahead(text, slack))
      else !Converts(scan, After(scan, text))
  }

  // Every token that converts has at least three characters.
  predicate ThreeDigits(scan: Scanner, text: seq<byte>)
    decreases |text|
  {
    Converts(scan, text) ==> FirstSpace(text) >= 3 && ThreeDigits(scan, After(scan, text))
  }

  lemma {:induction false} ThreeDigitsAreRoomy(scan: Scanner, text: seq<byte>, slack: nat)
    requires ThreeDigits(scan, text)
    ensures Roomy(scan, text, slack)
    decreases |text|
  {
    hide Converts, After, FirstSpace;
    if Converts(scan, text) {
      ThreeDigitsAreRoomy(scan, After(scan, text), Ahead(text, slack));
    }
  }

  // Decoding in place gives what decoding a copy gives exactly if every sample that another one
  // follows fits into the text read before it.
  lemma {:induction false} SameAsCopy(scan: Scanner, text: seq<byte>, slack: nat)
    ensures DecodeWithin(scan, text, slack) == Decode(scan, text) <==> Roomy(scan, text, slack)
    decreases |text|
  {
    hide Converts, After, FirstSpace, First;
    if Converts(scan, text) {
      var rest, left := After(scan, text), Ahead(text, slack);
      if left >= 0 {
        SameAsCopy(scan, rest, left);
        SameTail(First(scan, text), DecodeWithin(scan, rest, left), Decode(scan, rest));
      } else {
        SameTail(First(scan, text), [], Decode(scan, rest));
      }
    }
  }

  lemma SameTail(x: Sample, a: seq<Sample>, b: seq<Sample>)
    ensures [x] + a == [x] + b <==> a == b
  {
    assert ([x] + a)[1..] == a && ([x] + b)[1..] == b;
  }

  // Two one-digit tokens: decoding in place loses the second.
  lemma ShortTokensAreLost(scan: Scanner, zero: byte)
    requires zero != SPACE && scan([zero]).Some?
    ensures var text := [zero, SPACE, zero, SPACE];
            |Decode(scan, text)| == 2 && |DecodeWithin(scan, text, 0)| == 1 && !Roomy(scan, text, 0)
  {
    var text := [zero, SPACE, zero, SPACE];
    var rest := [zero, SPACE];
    FirstSpaceAt(text, 1);
    FirstSpaceAt(rest, 1);
    assert text[..1] == [zero] && text[2..] == rest && rest[..1] == [zero] && rest[2..] == [];
    assert |Decode(scan, rest)| == 1;
  }

  lemma FirstSpaceAt(text: seq<byte>, k: nat)
    requires k < |text| && text[k] == SPACE && forall j | 0 <= j < k :: text[j] != SPACE
    ensures FirstSpace(text) == k
  {
    if FirstSpace(text) < k {
      assert text[FirstSpace(text)] == SPACE;
    }
  }

  // ---------------------------------------------------------------- decoding in place

  // strchr(result, ' ') on a text that ends with the zero byte at `stop`.
  method StrChrSpace(buffer: array<byte>, from: nat, ghost stop: nat) returns (at: Option<nat>)
    requires from <= stop < buffer.Length && buffer[stop] == 0
    requires forall i | from <= i < stop :: buffer[i] != 0
    ensures var k := FirstSpace(buffer[from..stop]);
            at == if from + k == stop then None else Some(from + k)
  {
    var i := from;
    while buffer[i] != 0 && buffer[i] != SPACE
      invariant from <= i <= stop
      invariant FirstSpace(buffer[from..stop]) == i - from + FirstSpace(buffer[i..stop])
      decreases stop - i
    {
      assert buffer[i..stop][1..] == buffer[i + 1..stop];
      i := i + 1;
    }
    if buffer[i] == SPACE {
      return Some(i);
    }
    return None;
  }

  // Memory when `count` samples are stored and the text from `result` on is still to be read.
  ghost predicate Midway(mem: seq<byte>, was: seq<byte>, n: nat, scan: Scanner, result: nat, count: nat) {
    && |mem| == |was| && 4 * count <= result <= n < |was|
    && (forall i | result <= i < |was| :: mem[i] == was[i])
    && Samples(mem, count) + DecodeWithin(scan, was[result..n], result - 4 * count) == DecodeWithin(scan, was[..n], 0)
  }

  // Memory when a sample has run into the unread text: what comes next is no token, either because no
  // space is left before the next zero byte or because it starts with a byte that does not convert.
  ghost predicate Spent(mem: seq<byte>, was: seq<byte>, n: nat, scan: Scanner, result: nat, count: nat, stop: nat) {
    && result <= stop < |mem| == |was| && n < |was| && mem[stop] == 0 && 4 * count <= |mem|
    && (forall i | result <= i < stop :: mem[i] != 0)
    && ((forall i | result <= i < stop :: mem[i] != SPACE) || (mem[result] == 0xFF && 4 * count <= result + 1))
    && Samples(mem, count) == DecodeWithin(scan, was[..n], 0)
  }

  ghost predicate Reading(mem: seq<byte>, was: seq<byte>, n: nat, scan: Scanner, result: nat, count: nat, stop: nat) {
    (stop == n && Midway(mem, was, n, scan, result, count)) || Spent(mem, was, n, scan, result, count, stop)
  }

  // A C string, with another byte behind its end. A negative number may overwrite the terminator: then
  // another zero byte must follow somewhere.
  ghost predicate Readable(was: seq<byte>, n: nat, scan: Scanner) {
    && n + 2 <= |was| && was[n] == 0 && (forall i | 0 <= i < n :: was[i] != 0)
    && Hexadecimal(scan)
    && (MINUS in was[..n] ==> exists z :: n < z < |was| && was[z] == 0)
  }

  // hdhomerun_device_get_tuner_plotsample_internal on the text buffer[..n].
  method DecodeInPlace(buffer: array<byte>, n: nat, scan: Scanner) returns (count: nat)
    requires Readable(buffer[..], n, scan)
    modifies buffer
    ensures 4 * count <= buffer.Length
    ensures Samples(buffer[..], count) == DecodeWithin(scan, old(buffer[..n]), 0)
  {
    ghost var was := buffer[..];
    assert was[..n] == buffer[..n] && was[0..n] == was[..n];
    var result := 0;
    count := 0;
    var more := true;
    ghost var stop := n;
    while more
      invariant more ==> Reading(buffer[..], was, n, scan, result, count, stop)
      invariant !more ==> 4 * count <= buffer.Length && Samples(buffer[..], count) == DecodeWithin(scan, was[..n], 0)
      decreases more, n - result
    {
      hide Reading, Readable;
      more, result, count, stop := ReadOne(buffer, n, scan, result, count, was, stop);
    }
  }

  // One turn of the loop.
  method ReadOne(buffer: array<byte>, n: nat, scan: Scanner, result: nat, count: nat,
                 ghost was: seq<byte>, ghost stop: nat)
    returns (more: bool, result': nat, count': nat, ghost stop': nat)
    requires Readable(was, n, scan) && Reading(buffer[..], was, n, scan, result, count, stop)
    modifies buffer
    ensures more ==> result < result' <= n && Reading(buffer[..], was, n, scan, result', count', stop')
    ensures !more ==> 4 * count' <= buffer.Length && Samples(buffer[..], count') == DecodeWithin(scan, was[..n], 0)
  {
    hide Samples, Roomy, DecodeWithin, FirstSpace, Reading, Readable;
    ghost var mem := buffer[..];
    StopAhead(mem, was, n, scan, result, count, stop);
    assert forall i | result <= i < stop :: buffer[i] == mem[i];
    var found := StrChrSpace(buffer, result, stop);
    more, result', count', stop' := false, result, count, stop;
    if found == None {
      AtTheEnd(mem, was, n, scan, result, count, stop);
      return;
    }
    var space := found.value;
    ghost var k := space - result;
    AtToken(mem, was, n, scan, result, count, stop, k);
    buffer[space] := 0;
    var token := scan(buffer[result..space]);
    TokenText(mem, buffer[..], result, stop, k);
    SamplesLocal(mem, buffer[..], count);
    result' := space + 1;
    if token == None {
      return;
    }
    TokenBounds(scan, was, n, result, k, token.value);
    StoreSample(buffer, count, token.value);
    count' := count + 1;
    more := true;
    stop' := NextStop(mem, buffer[..], was, n, scan, result, count, k, token.value);
  }

  lemma NothingMore(scan: Scanner, text: seq<byte>, slack: nat)
    requires !Converts(scan, text)
    ensures DecodeWithin(scan, text, slack) == []
  {
  }

  lemma StopAhead(mem: seq<byte>, was: seq<byte>, n: nat, scan: Scanner, result: nat, count: nat, stop: nat)
    requires Readable(was, n, scan) && Reading(mem, was, n, scan, result, count, stop)
    ensures |mem| == |was| && n + 2 <= |was|
    ensures result <= stop < |mem| && mem[stop] == 0 && forall i | result <= i < stop :: mem[i] != 0
  {
    hide Samples, DecodeWithin, Roomy, Hexadecimal;
  }

  lemma AtTheEnd(mem: seq<byte>, was: seq<byte>, n: nat, scan: Scanner, result: nat, count: nat, stop: nat)
    requires Reading(mem, was, n, scan, result, count, stop) && FirstSpace(mem[result..stop]) == stop - result
    ensures 4 * count <= |mem| && Samples(mem, count) == DecodeWithin(scan, was[..n], 0)
  {
    hide Samples, DecodeWithin, Roomy;
    if !Spent(mem, was, n, scan, result, count, stop) {
      assert mem[result..stop] == was[result..n];
      NothingMore(scan, was[result..n], result - 4 * count);
    }
  }

  lemma TokenText(mem: seq<byte>, mem': seq<byte>, from: nat, stop: nat, k: nat)
    requires from + k < stop <= |mem| && mem' == mem[from + k := 0]
    ensures mem'[from..from + k] == mem[from..stop][..k]
  {
  }

  lemma LastOfFour(mem: seq<byte>, i: nat, s: seq<byte>)
    requires i + 4 <= |mem| && mem[i..i + 4] == s
    ensures mem[i + 2] == s[2] && mem[i + 3] == s[3]
  {
  }

  // A space is found: what is before it is a token of the text, or does not convert.
  lemma AtToken(mem: seq<byte>, was: seq<byte>, n: nat, scan: Scanner, result: nat, count: nat, stop: nat, k: nat)
    requires Readable(was, n, scan) && Reading(mem, was, n, scan, result, count, stop) && stop <= |mem|
    requires result <= stop && k == FirstSpace(mem[result..stop]) < stop - result
    ensures 4 * count <= result + k && result + k < |mem|
    ensures scan(mem[result..stop][..k]) == None ==> Samples(mem, count) == DecodeWithin(scan, was[..n], 0)
    ensures scan(mem[result..stop][..k]) != None ==>
              && stop == n && Midway(mem, was, n, scan, result, count)
              && result <= n && n < |was| == |mem| && mem[result..stop] == was[result..n]
  {
    hide Samples, DecodeWithin, Roomy;
    var token := mem[result..stop][..k];
    assert mem[result + k] == SPACE;
    if Spent(mem, was, n, scan, result, count, stop) {
      assert mem[result] == 0xFF && token[0] == 0xFF;
    } else {
      assert mem[result..stop] == was[result..n];
      if scan(token) == None {
        NothingMore(scan, was[result..n], result - 4 * count);
      }
    }
  }

  lemma TokenBounds(scan: Scanner, was: seq<byte>, n: nat, result: nat, k: nat, raw: uint32)
    requires Readable(was, n, scan) && result <= n && k < n - result
    requires scan(was[result..n][..k]) == Some(raw)
    ensures k >= 1 && (k == 1 ==> raw < 0x10)
    ensures k == 2 ==> raw < 0x100 || (raw >= LEAST_NEGATED && exists z :: n < z < |was| && was[z] == 0)
  {
    var token := was[result..n][..k];
    assert k == 0 ==> token == [];
    assert MINUS in token ==> MINUS in was[..n] by {
      assert forall i | 0 <= i < k :: token[i] == was[..n][result + i];
    }
  }

  lemma TokenIs(scan: Scanner, text: seq<byte>, k: nat, raw: uint32, slack: nat)
    requires k == FirstSpace(text) < |text| && scan(text[..k]) == Some(raw)
    ensures Converts(scan, text) && First(scan, text) == SampleOf(raw) && After(scan, text) == text[k + 1..]
    ensures Ahead(text, slack) == slack + k + 1 - 4
  {
    hide SampleOf, FirstSpace;
  }

  lemma TokenStep(scan: Scanner, text: seq<byte>, k: nat, raw: uint32, slack: nat)
    requires k == FirstSpace(text) < |text| && scan(text[..k]) == Some(raw)
    ensures DecodeWithin(scan, text, slack)
         == [SampleOf(raw)] + if slack + k + 1 >= 4 then DecodeWithin(scan, text[k + 1..], slack + k + 1 - 4) else []
  {
    hide Converts, After, FirstSpace, First, Ahead, SampleOf;
    TokenIs(scan, text, k, raw, slack);
  }

  // Reading one more token and storing its sample.
  lemma NextStop(mem: seq<byte>, mem': seq<byte>, was: seq<byte>, n: nat, scan: Scanner, result: nat, count: nat,
                 k: nat, raw: uint32)
    returns (stop: nat)
    requires Midway(mem, was, n, scan, result, count) && n + 2 <= |was|
    requires k == FirstSpace(was[result..n]) && 1 <= k < n - result && scan(was[result..n][..k]) == Some(raw)
    requires was[n] == 0 && (k == 1 ==> raw < 0x10)
    requires k == 2 ==> raw < 0x100 || (raw >= LEAST_NEGATED && exists z :: n < z < |was| && was[z] == 0)
    requires |mem'| == |mem| && 4 * count + 4 <= |mem| && mem'[4 * count..4 * count + 4] == SampleBytes(raw)
    requires Samples(mem', count + 1) == Samples(mem, count) + [SampleOf(raw)]
    requires forall i | result + k + 1 <= i < |mem| && 4 * count + 4 <= i :: mem'[i] == mem[i]
    ensures Reading(mem', was, n, scan, result + k + 1, count + 1, stop)
  {
    hide Samples, Decode, DecodeWithin, Roomy, FirstSpace, SampleBytes;
    var rest := was[result..n];
    var tail := was[result + k + 1..n];
    var slack := result - 4 * count;
    assert rest[k + 1..] == tail;
    TokenStep(scan, rest, k, raw, slack);
    var one, before := [SampleOf(raw)], Samples(mem, count);
    stop := n;
    if slack + k + 1 >= 4 {
      var more := DecodeWithin(scan, tail, slack + k + 1 - 4);
      assert before + (one + more) == (before + one) + more;
      assert Midway(mem', was, n, scan, result + k + 1, count + 1);
    } else {
      assert before + (one + []) == before + one;
      LastOfFour(mem', 4 * count, SampleBytes(raw));
      if raw < 0x100 {
        SmallSample(raw);
        stop := if mem'[result + k + 1] == 0 then result + k + 1 else result + k + 2;
      } else {
        NegatedSample(raw);
        assert result + k + 1 == 4 * count + 3;
        var z := if result + k + 1 < n then n else var z :| n < z < |was| && was[z] == 0; z;
        assert mem'[z] == was[z];
        stop := FirstZero(mem', result + k + 1, z);
      }
      assert Spent(mem', was, n, scan, result + k + 1, count + 1, stop);
    }
  }

  lemma FirstZero(mem: seq<byte>, from: nat, z: nat) returns (stop: nat)
    requires from <= z < |mem| && mem[z] == 0
    ensures from <= stop <= z && mem[stop] == 0 && forall i | from <= i < stop :: mem[i] != 0
  {
    stop := from;
    while mem[stop] != 0
      invariant from <= stop <= z && forall i | from <= i < stop :: mem[i] != 0
      decreases z - stop
    {
      stop := stop + 1;
    }
  }

  lemma NegatedSample(raw: uint32)
    requires raw >= LEAST_NEGATED
    ensures SampleBytes(raw)[3] == 0xFF
  {
    assert raw % 0x1000 >= 0xFF1;
  }

  lemma SmallSample(raw: uint32)
    requires raw < 0x100
    ensures SampleBytes(raw) == [0, 0, raw, 0]
  {
  }

  method StoreSample(buffer: array<byte>, i: nat, raw: uint32)
    requires 4 * i + 4 <= buffer.Length
    modifies buffer
    ensures Samples(buffer[..], i + 1) == old(Samples(buffer[..], i)) + [SampleOf(raw)]
    ensures buffer[..][4 * i..4 * i + 4] == SampleBytes(raw)
    ensures forall j | 4 * i + 4 <= j < buffer.Length :: buffer[j] == old(buffer[j])
  {
    ghost var mem := buffer[..];
    var s := SampleBytes(raw);
    buffer[4 * i] := s[0];
    buffer[4 * i + 1] := s[1];
    buffer[4 * i + 2] := s[2];
    buffer[4 * i + 3] := s[3];
    assert buffer[..][4 * i..4 * i + 4] == s;
    StoredSample(buffer[..], i, raw);
    SamplesLocal(mem, buffer[..], i);
  }
}
