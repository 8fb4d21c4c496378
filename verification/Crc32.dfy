// The frame check sequence of the packet format: the CRC of section 3.2.9 of IEEE 802.3 in its
// reflected form (section 8 of RFC 1952). The library computes it with eight conditional XORs per
// byte; the reference definition here is the shift register fed one bit at a time.
module Crc32 {
  import opened Bytes
  import opened LinearRegister

  // ---------------------------------------------------------------- reference definition

  function Xor32(a: bv32, b: bv32): bv32 {
    a ^ b
  }

  // The generator polynomial, reflected, when a one leaves the register.
  function Feedback(r: bv32): bv32 {
    if r & 1 == 1 then 0xEDB8_8320 else 0
  }

  // One clock of the reflected shift register.
  function Clock(r: bv32): bv32 {
    Xor32(r >> 1, Feedback(r))
  }

  const REGISTER: Machine<bv32> := Machine(0, 1, Xor32, Clock)
  const INITIAL: bv32 := 0xFFFF_FFFF

  // The low n bits of a word in transmission order, least significant first.
  function LowBits(w: bv32, n: nat): (bits: seq<bool>)
    ensures |bits| == n
    decreases n
  {
    if n == 0 then [] else [w & 1 != 0] + LowBits(w >> 1, n - 1)
  }

  function Octet(b: byte): (w: bv32)
    ensures w & 0xFF == w
  {
    (b as bv8) as bv32
  }

  function Bits(s: seq<byte>): (bits: seq<bool>)
    ensures |bits| == 8 * |s|
  {
    if s == [] then [] else LowBits(Octet(s[0]), 8) + Bits(s[1..])
  }

  // The register after a whole byte string.
  function Register(s: seq<byte>): bv32 {
    Feed(REGISTER, INITIAL, Bits(s))
  }

  function Crc(s: seq<byte>): bv32 {
    Xor32(Register(s), 0xFFFF_FFFF)
  }

  // ---------------------------------------------------------------- the register is linear

  lemma XorAssociates(a: bv32, b: bv32, c: bv32)
    ensures Xor32(Xor32(a, b), c) == Xor32(a, Xor32(b, c))
  {
  }

  lemma XorCommutes(a: bv32, b: bv32)
    ensures Xor32(a, b) == Xor32(b, a)
  {
  }

  lemma XorMedial(a: bv32, b: bv32, c: bv32, d: bv32)
    ensures Xor32(Xor32(a, b), Xor32(c, d)) == Xor32(Xor32(a, c), Xor32(b, d))
  {
    XorAssociates(a, b, Xor32(c, d));
    XorAssociates(b, c, d);
    XorCommutes(b, c);
    XorAssociates(c, b, d);
    XorAssociates(a, c, Xor32(b, d));
  }

  lemma XorBits(a: bv32, b: bv32)
    ensures Xor32(a, b) >> 1 == Xor32(a >> 1, b >> 1)
    ensures Xor32(a, b) & 1 == (a & 1) ^ (b & 1)
  {
    calc {
      Xor32(a, b) >> 1;
      (a ^ b) >> 1;
      (a >> 1) ^ (b >> 1);
      Xor32(a >> 1, b >> 1);
    }
    assert Xor32(a, b) & 1 == (a ^ b) & 1 == (a & 1) ^ (b & 1);
  }

  lemma LowBit(a: bv32)
    ensures a & 1 == 0 || a & 1 == 1
  {
  }

  lemma FeedbackXor(a: bv32, b: bv32)
    ensures Feedback(Xor32(a, b)) == Xor32(Feedback(a), Feedback(b))
  {
    XorBits(a, b);
    LowBit(a);
    LowBit(b);
  }

  lemma ClockXor(a: bv32, b: bv32)
    ensures Clock(Xor32(a, b)) == Xor32(Clock(a), Clock(b))
  {
    calc {
      Clock(Xor32(a, b));
      Xor32(Xor32(a, b) >> 1, Feedback(Xor32(a, b)));
      { XorBits(a, b); FeedbackXor(a, b); }
      Xor32(Xor32(a >> 1, b >> 1), Xor32(Feedback(a), Feedback(b)));
      { XorMedial(a >> 1, b >> 1, Feedback(a), Feedback(b)); }
      Xor32(Clock(a), Clock(b));
    }
  }

  lemma ClockNonzero(a: bv32)
    ensures Clock(a) == 0 ==> a == 0
  {
  }

  lemma RegisterIsLinear()
    ensures Linear(REGISTER)
  {
    forall a: bv32, b: bv32, c: bv32, d: bv32
      ensures Medial(REGISTER, a, b, c, d)
    {
      XorMedial(a, b, c, d);
    }
    forall a: bv32, b: bv32
      ensures ClockLinear(REGISTER, a, b) && (REGISTER.clock(a) == REGISTER.zero ==> a == REGISTER.zero)
    {
      ClockXor(a, b);
      ClockNonzero(a);
    }
  }

  // Only the low n bits of r may be set.
  predicate Fits(n: nat, r: bv32)
    decreases n
  {
    if n == 0 then r == 0 else Fits(n - 1, r >> 1)
  }

  lemma {:induction false} FitsSubset(n: nat, r: bv32, part: bv32)
    requires Fits(n, r) && part & !r == 0
    ensures Fits(n, part)
    decreases n
  {
    if n > 0 {
      assert (part >> 1) & !(r >> 1) == 0;
      FitsSubset(n - 1, r >> 1, part >> 1);
    }
  }

  lemma {:induction false} FitsGrows(n: nat, k: nat, r: bv32)
    requires Fits(n, r) && n <= k
    ensures Fits(k, r)
    decreases k
  {
    if n == 0 && k > 0 {
      FitsGrows(0, k - 1, r >> 1);
    } else if n > 0 {
      FitsGrows(n - 1, k - 1, r >> 1);
    }
  }

  lemma TopBitDoesNotFit()
    ensures !Fits(31, 0x8000_0000)
  {
    assert Fits(31, 0x8000_0000) == Fits(21, 0x0020_0000) == Fits(11, 0x0000_0800) == Fits(1, 2);
  }

  lemma TopBitNeedsWidth(n: nat, r: bv32)
    requires n <= 31 && Fits(n, r)
    ensures r & 0x8000_0000 == 0
  {
    if r & 0x8000_0000 != 0 {
      assert 0x8000_0000 & !r == 0;
      FitsSubset(n, r, 0x8000_0000);
      FitsGrows(n, 31, 0x8000_0000);
      TopBitDoesNotFit();
    }
  }

  lemma ClockShifts(n: nat, r: bv32)
    requires n <= 31 && Fits(n, Clock(r))
    ensures Fits(n + 1, r)
  {
    TopBitNeedsWidth(n, Clock(r));
    assert r & 1 == 0 || r & 1 == 1;
    assert ((r >> 1) ^ 0xEDB8_8320) & 0x8000_0000 != 0;
  }

  lemma LowestBitFits(n: nat, r: bv32, b: bool)
    requires 0 < n && Fits(n, Xor32(r, if b then 1 else 0))
    ensures Fits(n, r)
  {
    XorBits(r, if b then 1 else 0);
    assert Xor32(r >> 1, 0) == r >> 1;
  }

  lemma FeedbackDoesNotFit(n: nat)
    requires n <= 31
    ensures !Fits(n, Clock(1))
  {
    if Fits(n, Clock(1)) {
      TopBitNeedsWidth(n, Clock(1));
    }
  }

  lemma RegisterShifts()
    ensures Shifts(REGISTER, Fits, 32)
  {
    forall n: nat, r: bv32 | n < 32 && Fits(n, REGISTER.clock(r))
      ensures Fits(n + 1, r)
    {
      ClockShifts(n, r);
    }
    forall n: nat, r: bv32, b | 0 < n && Fits(n, REGISTER.xor(r, Bit(REGISTER, b)))
      ensures Fits(n, r)
    {
      LowestBitFits(n, r, b);
    }
    forall n: nat | n < 32
      ensures !Fits(n, REGISTER.clock(REGISTER.one))
    {
      FeedbackDoesNotFit(n);
    }
  }

  // ---------------------------------------------------------------- feeding a whole word

  lemma EvenPart(w: bv32)
    ensures Xor32(w & 1, w & 0xFFFF_FFFE) == w
  {
  }

  lemma ClockEven(w: bv32)
    ensures Clock(w & 0xFFFF_FFFE) == w >> 1
  {
  }

  lemma ClockDefers(r: bv32, w: bv32)
    ensures Clock(Xor32(r, w)) == Xor32(Clock(Xor32(r, w & 1)), w >> 1)
  {
    var rest := w & 0xFFFF_FFFE;
    calc {
      Clock(Xor32(r, w));
      { EvenPart(w); XorAssociates(r, w & 1, rest); }
      Clock(Xor32(Xor32(r, w & 1), rest));
      { ClockXor(Xor32(r, w & 1), rest); }
      Xor32(Clock(Xor32(r, w & 1)), Clock(rest));
      { ClockEven(w); }
      Xor32(Clock(Xor32(r, w & 1)), w >> 1);
    }
  }

  // Feeding the bits of a word is the same as XORing the word into the register first.
  lemma {:induction false} FeedWord(r: bv32, w: bv32, n: nat)
    requires Fits(n, w)
    ensures Feed(REGISTER, r, LowBits(w, n)) == Feed(REGISTER, Xor32(r, w), Zeros(n))
    decreases n
  {
    if n == 0 {
      assert Xor32(r, 0) == r;
    } else {
      var next := Clock(Xor32(r, w & 1));
      calc {
        Feed(REGISTER, Xor32(r, w), Zeros(n));
        { assert Zeros(n)[1..] == Zeros(n - 1); assert Xor32(Xor32(r, w), 0) == Xor32(r, w); }
        Feed(REGISTER, Clock(Xor32(r, w)), Zeros(n - 1));
        { ClockDefers(r, w); }
        Feed(REGISTER, Xor32(next, w >> 1), Zeros(n - 1));
        { FeedWord(next, w >> 1, n - 1); }
        Feed(REGISTER, next, LowBits(w >> 1, n - 1));
        { LowBit(w); assert LowBits(w, n)[1..] == LowBits(w >> 1, n - 1); }
        Feed(REGISTER, r, LowBits(w, n));
      }
    }
  }

  // ---------------------------------------------------------------- the library's algorithm

  function Pick(c: bv32, x: bv32, bit: bv32, entry: bv32): bv32 {
    if x & bit != 0 then Xor32(c, entry) else c
  }

  // One turn of the loop: the table entries of the single-bit bytes, XORed in as the byte asks.
  function ByteStep(crc: bv32, b: bv32): bv32 {
    var x := Xor32(crc, b) & 0xFF;
    var c := crc >> 8;
    var c := Pick(c, x, 0x01, 0x7707_3096);
    var c := Pick(c, x, 0x02, 0xEE0E_612C);
    var c := Pick(c, x, 0x04, 0x076D_C419);
    var c := Pick(c, x, 0x08, 0x0EDB_8832);
    var c := Pick(c, x, 0x10, 0x1DB7_1064);
    var c := Pick(c, x, 0x20, 0x3B6E_20C8);
    var c := Pick(c, x, 0x40, 0x76DC_4190);
    Pick(c, x, 0x80, 0xEDB8_8320)
  }

  // Eight clocks without input.
  function Shift8(r: bv32): bv32 {
    Feed(REGISTER, r, Zeros(8))
  }

  function Clocks8(r: bv32): bv32 {
    Clock(Clock(Clock(Clock(Clock(Clock(Clock(Clock(r))))))))
  }

  lemma FeedZeroStep(r: bv32, n: nat)
    requires n > 0
    ensures Feed(REGISTER, r, Zeros(n)) == Feed(REGISTER, Clock(r), Zeros(n - 1))
  {
    assert Zeros(n)[1..] == Zeros(n - 1);
    assert Xor32(r, 0) == r;
  }

  lemma FeedFourZeros(r: bv32, n: nat)
    requires n >= 4
    ensures Feed(REGISTER, r, Zeros(n)) == Feed(REGISTER, Clock(Clock(Clock(Clock(r)))), Zeros(n - 4))
  {
    calc {
      Feed(REGISTER, r, Zeros(n));
      { FeedZeroStep(r, n); }
      Feed(REGISTER, Clock(r), Zeros(n - 1));
      { FeedZeroStep(Clock(r), n - 1); }
      Feed(REGISTER, Clock(Clock(r)), Zeros(n - 2));
      { FeedZeroStep(Clock(Clock(r)), n - 2); }
      Feed(REGISTER, Clock(Clock(Clock(r))), Zeros(n - 3));
      { FeedZeroStep(Clock(Clock(Clock(r))), n - 3); }
      Feed(REGISTER, Clock(Clock(Clock(Clock(r)))), Zeros(n - 4));
    }
  }

  lemma Shift8Clocks(r: bv32)
    ensures Shift8(r) == Clocks8(r)
  {
    FeedFourZeros(r, 8);
    FeedFourZeros(Clock(Clock(Clock(Clock(r)))), 4);
  }

  lemma Shift8Xor(a: bv32, b: bv32)
    ensures Shift8(Xor32(a, b)) == Xor32(Shift8(a), Shift8(b))
  {
    hide Feed, Clock, Linear;
    RegisterIsLinear();
    FeedLinear(REGISTER, a, b, Zeros(8), Zeros(8));
    assert Xor(Zeros(8), Zeros(8)) == Zeros(8);
  }

  // The register when its low byte is zero: eight clocks are a plain shift.
  lemma Clocks8High(h: bv32)
    requires h & 0xFF == 0
    ensures Clocks8(h) == h >> 8
  {
  }

  // The table entries in the source are the eight single-bit bytes after eight clocks.
  ghost predicate HasTable(f: bv32 -> bv32) {
    && f(0x01) == 0x7707_3096 && f(0x02) == 0xEE0E_612C && f(0x04) == 0x076D_C419 && f(0x08) == 0x0EDB_8832
    && f(0x10) == 0x1DB7_1064 && f(0x20) == 0x3B6E_20C8 && f(0x40) == 0x76DC_4190 && f(0x80) == 0xEDB8_8320
  }

  ghost predicate Additive(f: bv32 -> bv32) {
    && f(0) == 0
    && forall a, b :: f(Xor32(a, b)) == Xor32(f(a), f(b))
  }

  lemma LowTableEntries()
    ensures Clocks8(0x01) == 0x7707_3096 && Clocks8(0x02) == 0xEE0E_612C
    ensures Clocks8(0x04) == 0x076D_C419 && Clocks8(0x08) == 0x0EDB_8832
  {
  }

  lemma HighTableEntries()
    ensures Clocks8(0x10) == 0x1DB7_1064 && Clocks8(0x20) == 0x3B6E_20C8
    ensures Clocks8(0x40) == 0x76DC_4190 && Clocks8(0x80) == 0xEDB8_8320
  {
  }

  // One conditional XOR accounts for one more bit of the byte in `x`; `part` holds the bits done.
  lemma TableStep(f: bv32 -> bv32, c: bv32, h: bv32, x: bv32, part: bv32, bit: bv32)
    requires Additive(f) && c == Xor32(h, f(part))
    requires x & bit == 0 || x & bit == bit
    requires bit != 0
    ensures Pick(c, x, bit, f(bit)) == Xor32(h, f(Xor32(part, x & bit)))
  {
    if x & bit != 0 {
      XorAssociates(h, f(part), f(bit));
      assert f(Xor32(part, bit)) == Xor32(f(part), f(bit));
    } else {
      assert Xor32(part, 0) == part;
    }
  }

  lemma SingleBits(x: bv32)
    ensures x & 0x01 == 0 || x & 0x01 == 0x01
    ensures x & 0x02 == 0 || x & 0x02 == 0x02
    ensures x & 0x04 == 0 || x & 0x04 == 0x04
    ensures x & 0x08 == 0 || x & 0x08 == 0x08
    ensures x & 0x10 == 0 || x & 0x10 == 0x10
    ensures x & 0x20 == 0 || x & 0x20 == 0x20
    ensures x & 0x40 == 0 || x & 0x40 == 0x40
    ensures x & 0x80 == 0 || x & 0x80 == 0x80
  {
  }

  lemma ByteFromBits(x: bv32)
    requires x & 0xFF == x
    ensures var p := Xor32(Xor32(Xor32(Xor32(0, x & 0x01), x & 0x02), x & 0x04), x & 0x08);
            Xor32(Xor32(Xor32(Xor32(p, x & 0x10), x & 0x20), x & 0x40), x & 0x80) == x
  {
    var p := (((0 ^ (x & 0x01)) ^ (x & 0x02)) ^ (x & 0x04)) ^ (x & 0x08);
    assert p == x & 0x0F;
    assert (((p ^ (x & 0x10)) ^ (x & 0x20)) ^ (x & 0x40)) ^ (x & 0x80) == x;
  }

  lemma TwoSteps(f: bv32 -> bv32, h: bv32, x: bv32, part: bv32, b0: bv32, b1: bv32)
    requires Additive(f) && b0 != 0 && b1 != 0
    requires x & b0 == 0 || x & b0 == b0
    requires x & b1 == 0 || x & b1 == b1
    ensures Pick(Pick(Xor32(h, f(part)), x, b0, f(b0)), x, b1, f(b1))
         == Xor32(h, f(Xor32(Xor32(part, x & b0), x & b1)))
  {
    calc {
      Pick(Pick(Xor32(h, f(part)), x, b0, f(b0)), x, b1, f(b1));
      { TableStep(f, Xor32(h, f(part)), h, x, part, b0); }
      Pick(Xor32(h, f(Xor32(part, x & b0))), x, b1, f(b1));
      { TableStep(f, Xor32(h, f(Xor32(part, x & b0))), h, x, Xor32(part, x & b0), b1); }
      Xor32(h, f(Xor32(Xor32(part, x & b0), x & b1)));
    }
  }

  lemma FourSteps(f: bv32 -> bv32, h: bv32, x: bv32, part: bv32, b0: bv32, b1: bv32, b2: bv32, b3: bv32)
    requires Additive(f) && b0 != 0 && b1 != 0 && b2 != 0 && b3 != 0
    requires x & b0 == 0 || x & b0 == b0
    requires x & b1 == 0 || x & b1 == b1
    requires x & b2 == 0 || x & b2 == b2
    requires x & b3 == 0 || x & b3 == b3
    ensures Pick(Pick(Pick(Pick(Xor32(h, f(part)), x, b0, f(b0)), x, b1, f(b1)), x, b2, f(b2)), x, b3, f(b3))
         == Xor32(h, f(Xor32(Xor32(Xor32(Xor32(part, x & b0), x & b1), x & b2), x & b3)))
  {
    calc {
      Pick(Pick(Pick(Pick(Xor32(h, f(part)), x, b0, f(b0)), x, b1, f(b1)), x, b2, f(b2)), x, b3, f(b3));
      { TwoSteps(f, h, x, part, b0, b1); }
      Pick(Pick(Xor32(h, f(Xor32(Xor32(part, x & b0), x & b1))), x, b2, f(b2)), x, b3, f(b3));
      { TwoSteps(f, h, x, Xor32(Xor32(part, x & b0), x & b1), b2, b3); }
      Xor32(h, f(Xor32(Xor32(Xor32(Xor32(part, x & b0), x & b1), x & b2), x & b3)));
    }
  }

  lemma TableAdds(f: bv32 -> bv32, crc: bv32, b: bv32)
    requires Additive(f) && HasTable(f)
    ensures ByteStep(crc, b) == Xor32(crc >> 8, f(Xor32(crc, b) & 0xFF))
  {
    var h, x := crc >> 8, Xor32(crc, b) & 0xFF;
    SingleBits(x);
    assert Xor32(h, 0) == h;
    var p := Xor32(Xor32(Xor32(Xor32(0, x & 0x01), x & 0x02), x & 0x04), x & 0x08);
    FourSteps(f, h, x, 0, 0x01, 0x02, 0x04, 0x08);
    FourSteps(f, h, x, p, 0x10, 0x20, 0x40, 0x80);
    ByteFromBits(x);
  }

  lemma Shift8Additive()
    ensures Additive(Shift8) && HasTable(Shift8)
  {
    forall a, b
      ensures Shift8(Xor32(a, b)) == Xor32(Shift8(a), Shift8(b))
    {
      Shift8Xor(a, b);
    }
    RegisterIsLinear();
    FeedZeros(REGISTER, 0, 8);
    Shift8Table();
  }

  lemma Shift8Table()
    ensures HasTable(Shift8)
  {
    LowTableEntries();
    HighTableEntries();
    Shift8Clocks(0x01);
    Shift8Clocks(0x02);
    Shift8Clocks(0x04);
    Shift8Clocks(0x08);
    Shift8Clocks(0x10);
    Shift8Clocks(0x20);
    Shift8Clocks(0x40);
    Shift8Clocks(0x80);
  }

  lemma SplitLowByte(v: bv32, r: bv32, x: bv32)
    requires v == Xor32(r, x) && x & 0xFF == x
    ensures v == Xor32(v & 0xFFFF_FF00, v & 0xFF)
    ensures (v & 0xFFFF_FF00) & 0xFF == 0 && (v & 0xFFFF_FF00) >> 8 == r >> 8
  {
  }

  // The register after the byte x is XORed in, as its upper 24 bits and its low byte.
  lemma Parts(v: bv32, r: bv32, x: bv32) returns (h: bv32, l: bv32)
    requires v == Xor32(r, x) && x & 0xFF == x
    ensures v == Xor32(h, l) && l == v & 0xFF
    ensures h & 0xFF == 0 && h >> 8 == r >> 8
  {
    hide Xor32;
    SplitLowByte(v, r, x);
    h, l := v & 0xFFFF_FF00, v & 0xFF;
  }

  lemma Shift8OfParts(h: bv32, l: bv32)
    requires h & 0xFF == 0
    ensures Shift8(Xor32(h, l)) == Xor32(h >> 8, Shift8(l))
  {
    hide Shift8, Clocks8, Xor32;
    Shift8Xor(h, l);
    Shift8Clocks(h);
    Clocks8High(h);
  }

  lemma Shift8Splits(r: bv32, x: bv32, v: bv32)
    requires v == Xor32(r, x) && x & 0xFF == x
    ensures Shift8(v) == Xor32(r >> 8, Shift8(v & 0xFF))
  {
    hide Shift8, Xor32;
    var h, l := Parts(v, r, x);
    Shift8OfParts(h, l);
  }

  lemma ByteStepIsShift8(r: bv32, x: bv32)
    requires x & 0xFF == x
    ensures ByteStep(r, x) == Xor32(r >> 8, Shift8(Xor32(r, x) & 0xFF))
  {
    Shift8Additive();
    TableAdds(Shift8, r, x);
  }

  lemma OctetFits(x: bv32)
    requires x & 0xFF == x
    ensures Fits(8, x)
  {
    assert ((x >> 4) >> 4) == 0;
    assert Fits(0, (x >> 4) >> 4) && Fits(2, (x >> 4) >> 2) && Fits(4, x >> 4) && Fits(6, x >> 2);
  }

  // The library's byte step is eight clocks of the bit-serial register fed with the byte's bits.
  lemma ByteStepIsBitSerial(r: bv32, x: bv32)
    requires x & 0xFF == x
    ensures ByteStep(r, x) == Feed(REGISTER, r, LowBits(x, 8))
  {
    OctetFits(x);
    FeedWord(r, x, 8);
    Shift8Splits(r, x, Xor32(r, x));
    ByteStepIsShift8(r, x);
  }
}
