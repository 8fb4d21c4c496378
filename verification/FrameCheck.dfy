// What the frame check sequence guarantees for whole byte strings: the byte-wise loop computes the
// bit-serial CRC, and comparing the trailer with it detects every burst of up to 32 bits.
module FrameCheck {
  import opened Bytes
  import opened LinearRegister
  import opened Crc32

  lemma {:induction false} BitsAppend(a: seq<byte>, b: seq<byte>)
    ensures Bits(a + b) == Bits(a) + Bits(b)
  {
    if a == [] {
      assert a + b == b;
    } else {
      assert (a + b)[1..] == a[1..] + b;
      BitsAppend(a[1..], b);
    }
  }

  lemma BitsOfOne(b: byte)
    ensures Bits([b]) == LowBits(Octet(b), 8)
  {
    assert Bits([b]) == LowBits(Octet(b), 8) + Bits([]);
  }

  lemma RegisterStep(done: seq<byte>, b: byte)
    ensures Register(done + [b]) == ByteStep(Register(done), Octet(b))
  {
    BitsAppend(done, [b]);
    BitsOfOne(b);
    FeedAppend(REGISTER, INITIAL, Bits(done), Bits([b]));
    ByteStepIsBitSerial(Register(done), Octet(b));
  }

  const DIGITS: seq<byte> := [0x31, 0x32, 0x33, 0x34, 0x35, 0x36, 0x37, 0x38, 0x39]

  lemma NextRegister(k: nat, was: bv32, octet: bv32, now: bv32)
    requires k < |DIGITS| && Octet(DIGITS[k]) == octet
    requires Register(DIGITS[..k]) == was && ByteStep(was, octet) == now
    ensures Register(DIGITS[..k + 1]) == now
  {
    hide Register, ByteStep, Octet;
    RegisterStep(DIGITS[..k], DIGITS[k]);
    assert DIGITS[..k + 1] == DIGITS[..k] + [DIGITS[k]];
  }

  // The published check value: the CRC of the nine digits from one.
  lemma CheckValue()
    ensures Crc(DIGITS) == 0xCBF4_3926
  {
    hide Register, ByteStep, Octet, Crc;
    EmptyRegister();
    DigitOctets();
    DigitSteps();
    assert DIGITS[..0] == [];
    NextRegister(0, 0xFFFF_FFFF, 0x31, 0x7C23_1048);
    NextRegister(1, 0x7C23_1048, 0x32, 0xB0AC_BB32);
    NextRegister(2, 0xB0AC_BB32, 0x33, 0x77B7_9C2D);
    NextRegister(3, 0x77B7_9C2D, 0x34, 0x641C_1F5C);
    NextRegister(4, 0x641C_1F5C, 0x35, 0x340A_C5E3);
    NextRegister(5, 0x340A_C5E3, 0x36, 0xF68D_2C9E);
    NextRegister(6, 0xF68D_2C9E, 0x37, 0xAFFC_9660);
    NextRegister(7, 0xAFFC_9660, 0x38, 0x651F_2550);
    NextRegister(8, 0x651F_2550, 0x39, 0x340B_C6D9);
    assert DIGITS[..9] == DIGITS;
    LastXor(DIGITS, 0x340B_C6D9);
  }

  // Its four bytes as they are sent.
  lemma CheckTrailer()
    ensures LeBytes(Crc(DIGITS)) == [0x26, 0x39, 0xF4, 0xCB]
  {
    hide Crc;
    CheckValue();
    TrailerOf(0xCBF4_3926);
  }

  lemma TrailerOf(w: bv32)
    requires w == 0xCBF4_3926
    ensures LeBytes(w) == [0x26, 0x39, 0xF4, 0xCB]
  {
  }

  lemma EmptyRegister()
    ensures Register([]) == INITIAL
  {
  }

  lemma LastXor(s: seq<byte>, r: bv32)
    requires Register(s) == r
    ensures Crc(s) == r ^ 0xFFFF_FFFF
  {
    hide Register;
  }

  lemma DigitOctets()
    ensures Octet(0x31) == 0x31 && Octet(0x32) == 0x32 && Octet(0x33) == 0x33 && Octet(0x34) == 0x34
    ensures Octet(0x35) == 0x35 && Octet(0x36) == 0x36 && Octet(0x37) == 0x37 && Octet(0x38) == 0x38
    ensures Octet(0x39) == 0x39
  {
  }

  lemma DigitSteps()
    ensures ByteStep(0xFFFF_FFFF, 0x31) == 0x7C23_1048
    ensures ByteStep(0x7C23_1048, 0x32) == 0xB0AC_BB32
    ensures ByteStep(0xB0AC_BB32, 0x33) == 0x77B7_9C2D
    ensures ByteStep(0x77B7_9C2D, 0x34) == 0x641C_1F5C
    ensures ByteStep(0x641C_1F5C, 0x35) == 0x340A_C5E3
    ensures ByteStep(0x340A_C5E3, 0x36) == 0xF68D_2C9E
    ensures ByteStep(0xF68D_2C9E, 0x37) == 0xAFFC_9660
    ensures ByteStep(0xAFFC_9660, 0x38) == 0x651F_2550
    ensures ByteStep(0x651F_2550, 0x39) == 0x340B_C6D9
  {
  }

  // hdhomerun_pkt_calc_crc
  method CalcCrc(buffer: array<byte>, start: nat, end: nat) returns (crc: bv32)
    requires start <= end <= buffer.Length
    ensures crc == Crc(buffer[start..end])
  {
    var pos := start;
    crc := INITIAL;
    while pos < end
      invariant start <= pos <= end
      invariant crc == Register(buffer[start..pos])
    {
      RegisterStep(buffer[start..pos], buffer[pos]);
      assert buffer[start..pos + 1] == buffer[start..pos] + [buffer[pos]];
      crc := ByteStep(crc, Octet(buffer[pos]));
      pos := pos + 1;
    }
    crc := Xor32(crc, 0xFFFF_FFFF);
  }

  // ---------------------------------------------------------------- the little-endian trailer

  function Le32(t: seq<byte>): bv32
    requires |t| == 4
  {
    Join(Octet(t[0]), Octet(t[1]), Octet(t[2]), Octet(t[3]))
  }

  function Join(a: bv32, b: bv32, c: bv32, d: bv32): bv32 {
    a | (b << 8) | (c << 16) | (d << 24)
  }

  function ByteOf(w: bv32): byte {
    ((w & 0xFF) as bv8) as int
  }

  function LeBytes(w: bv32): (t: seq<byte>)
    ensures |t| == 4
  {
    [ByteOf(w), ByteOf(w >> 8), ByteOf(w >> 16), ByteOf(w >> 24)]
  }

  lemma LowByteCast(w: bv32)
    ensures ((w & 0xFF) as bv8) as bv32 == w & 0xFF
  {
  }

  lemma OctetOfByte(w: bv32)
    ensures Octet(ByteOf(w)) == w & 0xFF
  {
    ByteRoundTrip((w & 0xFF) as bv8);
    LowByteCast(w);
  }

  lemma NarrowOctet(v: bv8)
    ensures ((v as bv32) & 0xFF) as bv8 == v && (v as bv32) & 0xFF == v as bv32
  {
  }

  lemma ByteOfOctet(b: byte, w: bv32)
    requires w & 0xFF == Octet(b)
    ensures ByteOf(w) == b
  {
    NarrowOctet(b as bv8);
    OctetRoundTrip(b);
  }

  lemma WordParts(w: bv32)
    ensures Join(w & 0xFF, (w >> 8) & 0xFF, (w >> 16) & 0xFF, (w >> 24) & 0xFF) == w
  {
  }

  lemma PartsOfWord(a: bv32, b: bv32, c: bv32, d: bv32)
    ensures a & 0xFF == a && b & 0xFF == b && c & 0xFF == c && d & 0xFF == d ==>
              && Join(a, b, c, d) & 0xFF == a && (Join(a, b, c, d) >> 8) & 0xFF == b
              && (Join(a, b, c, d) >> 16) & 0xFF == c && (Join(a, b, c, d) >> 24) & 0xFF == d
  {
  }

  lemma Le32OfLeBytes(w: bv32)
    ensures Le32(LeBytes(w)) == w
  {
    OctetOfByte(w);
    OctetOfByte(w >> 8);
    OctetOfByte(w >> 16);
    OctetOfByte(w >> 24);
    WordParts(w);
  }

  lemma LeBytesFromParts(t: seq<byte>, w: bv32)
    requires |t| == 4
    requires w & 0xFF == Octet(t[0]) && (w >> 8) & 0xFF == Octet(t[1])
    requires (w >> 16) & 0xFF == Octet(t[2]) && (w >> 24) & 0xFF == Octet(t[3])
    ensures LeBytes(w) == t
  {
    ByteOfOctet(t[0], w);
    ByteOfOctet(t[1], w >> 8);
    ByteOfOctet(t[2], w >> 16);
    ByteOfOctet(t[3], w >> 24);
  }

  lemma Le32Byte0(t: seq<byte>)
    requires |t| == 4
    ensures Le32(t) & 0xFF == Octet(t[0])
  {
    PartsOfWord(Octet(t[0]), Octet(t[1]), Octet(t[2]), Octet(t[3]));
  }

  lemma Le32Byte1(t: seq<byte>)
    requires |t| == 4
    ensures (Le32(t) >> 8) & 0xFF == Octet(t[1])
  {
    PartsOfWord(Octet(t[0]), Octet(t[1]), Octet(t[2]), Octet(t[3]));
  }

  lemma Le32Byte2(t: seq<byte>)
    requires |t| == 4
    ensures (Le32(t) >> 16) & 0xFF == Octet(t[2])
  {
    PartsOfWord(Octet(t[0]), Octet(t[1]), Octet(t[2]), Octet(t[3]));
  }

  lemma Le32Byte3(t: seq<byte>)
    requires |t| == 4
    ensures (Le32(t) >> 24) & 0xFF == Octet(t[3])
  {
    PartsOfWord(Octet(t[0]), Octet(t[1]), Octet(t[2]), Octet(t[3]));
  }

  lemma LeBytesOfLe32(t: seq<byte>)
    requires |t| == 4
    ensures LeBytes(Le32(t)) == t
  {
    Le32Byte0(t);
    Le32Byte1(t);
    Le32Byte2(t);
    Le32Byte3(t);
    LeBytesFromParts(t, Le32(t));
  }

  // The receiver's comparison.
  predicate Matches(body: seq<byte>, t: seq<byte>)
    requires |t| == 4
  {
    Crc(body) == Le32(t)
  }

  lemma MatchesOnlyTheCrc(body: seq<byte>, t: seq<byte>)
    requires |t| == 4
    ensures Matches(body, t) <==> t == LeBytes(Crc(body))
  {
    Le32OfLeBytes(Crc(body));
    LeBytesOfLe32(t);
  }

  // ---------------------------------------------------------------- the trailer as input bits

  function Shifted(w: bv32, k: nat): bv32
    decreases k
  {
    if k == 0 then w else Shifted(w >> 1, k - 1)
  }

  lemma {:induction false} LowBitsSplit(w: bv32, k: nat, n: nat)
    ensures LowBits(w, k + n) == LowBits(w, k) + LowBits(Shifted(w, k), n)
    decreases k
  {
    if k == 0 {
      assert LowBits(w, 0) + LowBits(w, n) == LowBits(w, n);
    } else {
      LowBitsSplit(w >> 1, k - 1, n);
      var low, x, y := [w & 1 != 0], LowBits(w >> 1, k - 1), LowBits(Shifted(w, k), n);
      calc {
        LowBits(w, k + n);
        low + LowBits(w >> 1, k - 1 + n);
        low + (x + y);
        (low + x) + y;
        LowBits(w, k) + y;
      }
    }
  }

  // Bits above the n lowest do not matter to LowBits.
  predicate Covers(mask: bv32, n: nat)
    decreases n
  {
    n > 0 ==> mask & 1 == 1 && Covers(mask >> 1, n - 1)
  }

  lemma MaskedShift(w: bv32, mask: bv32)
    ensures (w & mask) >> 1 == (w >> 1) & (mask >> 1)
    ensures mask & 1 == 1 ==> (w & mask) & 1 == w & 1
  {
  }

  lemma {:induction false} LowBitsMasked(w: bv32, mask: bv32, n: nat)
    requires Covers(mask, n)
    ensures LowBits(w & mask, n) == LowBits(w, n)
    decreases n
  {
    if n > 0 {
      MaskedShift(w, mask);
      LowBitsMasked(w >> 1, mask >> 1, n - 1);
    }
  }

  lemma OctetMaskCovers()
    ensures Covers(0xFF, 8)
  {
    assert Covers(0x0F, 4) && Covers(0x3F, 6);
  }

  lemma Shifted8(w: bv32)
    ensures Shifted(w, 8) == w >> 8
  {
    assert Shifted(w, 8) == Shifted(w >> 2, 6) == Shifted(w >> 4, 4) == Shifted(w >> 6, 2);
  }

  lemma LowBitsOctet(w: bv32, b: byte, n: nat)
    requires w & 0xFF == Octet(b)
    ensures LowBits(w, 8 + n) == LowBits(Octet(b), 8) + LowBits(w >> 8, n)
  {
    LowBitsSplit(w, 8, n);
    Shifted8(w);
    OctetMaskCovers();
    LowBitsMasked(w, 0xFF, 8);
  }

  lemma ShiftsCompose(w: bv32)
    ensures (w >> 8) >> 8 == w >> 16 && (w >> 16) >> 8 == w >> 24 && (w >> 24) >> 8 == 0
  {
  }

  // The octets of t are those of w, lowest first.
  ghost predicate Spells(w: bv32, t: seq<byte>)
    decreases t
  {
    t != [] ==> w & 0xFF == Octet(t[0]) && Spells(w >> 8, t[1..])
  }

  lemma {:induction false} SpelledBits(w: bv32, t: seq<byte>)
    requires Spells(w, t)
    ensures Bits(t) == LowBits(w, 8 * |t|)
    decreases t
  {
    if t != [] {
      LowBitsOctet(w, t[0], 8 * |t[1..]|);
      SpelledBits(w >> 8, t[1..]);
    }
  }

  lemma TrailerBits(t: seq<byte>)
    requires |t| == 4
    ensures Bits(t) == LowBits(Le32(t), 32)
  {
    var w := Le32(t);
    Le32Byte0(t);
    Le32Byte1(t);
    Le32Byte2(t);
    Le32Byte3(t);
    ShiftsCompose(w);
    assert Spells(w >> 24, t[3..]);
    assert Spells(w >> 16, t[2..]);
    assert Spells(w >> 8, t[1..]);
    SpelledBits(w, t);
  }

  lemma FullWordFits()
    ensures Fits(32, 0xFFFF_FFFF)
  {
    assert Fits(32, 0xFFFF_FFFF) == Fits(22, 0x003F_FFFF) == Fits(12, 0x0FFF) == Fits(2, 3);
  }

  lemma AllFit(r: bv32)
    ensures Fits(32, r)
  {
    FullWordFits();
    FitsSubset(32, 0xFFFF_FFFF, r);
  }

  // ---------------------------------------------------------------- acceptance and bursts

  // The register an intact frame leaves behind, whatever the frame.
  const RESIDUE: bv32 := Feed(REGISTER, 0xFFFF_FFFF, Zeros(32))

  // Comparing the trailer with the CRC is the same as looking at the register after the trailer.
  lemma AcceptanceByResidue(body: seq<byte>, t: seq<byte>)
    requires |t| == 4
    ensures Matches(body, t) <==> Register(body + t) == RESIDUE
  {
    hide Feed, Xor32, Clock, Linear, LowBits, Bits, Le32;
    var r, w := Register(body), Le32(t);
    calc {
      Register(body + t);
      { BitsAppend(body, t); FeedAppend(REGISTER, INITIAL, Bits(body), Bits(t)); TrailerBits(t); }
      Feed(REGISTER, r, LowBits(w, 32));
      { AllFit(w); FeedWord(r, w, 32); }
      Feed(REGISTER, Xor32(r, w), Zeros(32));
    }
    if Register(body + t) == RESIDUE {
      RegisterIsLinear();
      FeedInjective(REGISTER, Xor32(r, w), 0xFFFF_FFFF, Zeros(32));
    }
    XorSolve(r, w, 0xFFFF_FFFF);
  }

  lemma XorCancels(r: bv32, w: bv32)
    ensures Xor32(r, Xor32(r, w)) == w
  {
    assert r ^ (r ^ w) == w;
  }

  lemma XorSolve(r: bv32, w: bv32, ones: bv32)
    ensures Xor32(r, w) == ones <==> w == Xor32(r, ones)
  {
    XorCancels(r, w);
    XorCancels(r, ones);
  }

  lemma FeedOctet(b: byte)
    ensures Feed(REGISTER, 0, LowBits(Octet(b), 8)) == Feed(REGISTER, Octet(b), Zeros(8))
  {
    OctetFits(Octet(b));
    FeedWord(0, Octet(b), 8);
    assert Xor32(0, Octet(b)) == Octet(b);
  }

  lemma OctetInjective(a: byte, b: byte)
    requires LowBits(Octet(a), 8) == LowBits(Octet(b), 8)
    ensures a == b
  {
    RegisterIsLinear();
    FeedOctet(a);
    FeedOctet(b);
    FeedInjective(REGISTER, Octet(a), Octet(b), Zeros(8));
    ByteOfOctet(a, Octet(a));
    ByteOfOctet(b, Octet(b));
  }

  lemma {:induction false} BitsInjective(a: seq<byte>, b: seq<byte>)
    requires |a| == |b| && Bits(a) == Bits(b)
    ensures a == b
  {
    if a != [] {
      var x, y := LowBits(Octet(a[0]), 8), LowBits(Octet(b[0]), 8);
      assert x == Bits(a)[..8] && y == Bits(b)[..8];
      OctetInjective(a[0], b[0]);
      assert Bits(a[1..]) == Bits(a)[8..] && Bits(b[1..]) == Bits(b)[8..];
      BitsInjective(a[1..], b[1..]);
    }
  }

  lemma BurstChangesFeed(a: seq<bool>, b: seq<bool>, from: nat, to: nat)
    requires |a| == |b| && a != b
    requires from <= to <= |a| && to - from <= 32
    requires a[..from] == b[..from] && a[to..] == b[to..]
    ensures Feed(REGISTER, INITIAL, a) != Feed(REGISTER, INITIAL, b)
  {
    RegisterIsLinear();
    RegisterShifts();
    assert a == a[..from] + a[from..to] + a[to..];
    assert b == a[..from] + b[from..to] + a[to..];
    BurstIsDetected(REGISTER, Fits, 32, INITIAL, a[..from], a[from..to], b[from..to], a[to..]);
  }

  // The bits of f and g agree outside the window from..to, which is no wider than the register.
  ghost predicate BurstOnly(f: seq<byte>, g: seq<byte>, from: nat, to: nat) {
    && |f| == |g|
    && from <= to <= 8 * |f| && to - from <= 32
    && Bits(f)[..from] == Bits(g)[..from]
    && Bits(f)[to..] == Bits(g)[to..]
  }

  // Two different byte strings of one length whose bits agree outside some window of 32 consecutive
  // bits never have the same register.
  lemma BurstChangesRegister(f: seq<byte>, g: seq<byte>, from: nat, to: nat)
    requires BurstOnly(f, g, from, to) && f != g
    ensures Register(f) != Register(g)
  {
    if Bits(f) == Bits(g) {
      BitsInjective(f, g);
    }
    BurstChangesFeed(Bits(f), Bits(g), from, to);
  }

  // Of two strings that differ in a burst only, at most one carries a matching trailer.
  lemma BurstBreaksMatch(f: seq<byte>, g: seq<byte>, from: nat, to: nat)
    requires BurstOnly(f, g, from, to) && f != g && |f| >= 4
    ensures var n := |f| - 4; !(Matches(f[..n], f[n..]) && Matches(g[..n], g[n..]))
  {
    var n := |f| - 4;
    BurstChangesRegister(f, g, from, to);
    assert f == f[..n] + f[n..] && g == g[..n] + g[n..];
    AcceptanceByResidue(f[..n], f[n..]);
    AcceptanceByResidue(g[..n], g[n..]);
  }

  lemma BitsSlices(x: seq<byte>, at: nat)
    requires at <= |x|
    ensures Bits(x)[..8 * at] == Bits(x[..at]) && Bits(x)[8 * at..] == Bits(x[at..])
  {
    assert x == x[..at] + x[at..];
    BitsAppend(x[..at], x[at..]);
    SlicesOfConcatenation(Bits(x[..at]), Bits(x[at..]));
  }

  lemma SlicesOfConcatenation(a: seq<bool>, b: seq<bool>)
    ensures (a + b)[..|a|] == a && (a + b)[|a|..] == b
  {
  }

  // Four consecutive bytes are such a window.
  lemma FourByteBurst(f: seq<byte>, g: seq<byte>, at: nat)
    requires |f| == |g| && at + 4 <= |f|
    requires f[..at] == g[..at] && f[at + 4..] == g[at + 4..]
    ensures BurstOnly(f, g, 8 * at, 8 * (at + 4))
  {
    BitsSlices(f, at);
    BitsSlices(g, at);
    BitsSlices(f, at + 4);
    BitsSlices(g, at + 4);
  }
}
