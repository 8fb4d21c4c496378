// Linear feedback shift registers in general: a register value of any type with an exclusive-or,
// a linear injective clock, and input bits XORed into the register before each clock.
module LinearRegister {
  datatype Machine<!T> = Machine(zero: T, one: T, xor: (T, T) -> T, clock: T -> T)

  ghost predicate Linear<T(!new)>(m: Machine<T>) {
    && (forall a :: m.xor(a, m.zero) == a)
    && (forall a :: m.xor(m.zero, a) == a)
    && (forall a :: m.xor(a, a) == m.zero)
    && (forall a, b :: m.xor(a, b) == m.zero ==> a == b)
    && (forall a, b, c, d :: Medial(m, a, b, c, d))
    && (forall a, b :: ClockLinear(m, a, b))
    && (forall a :: m.clock(a) == m.zero ==> a == m.zero)
  }

  ghost predicate Medial<T>(m: Machine<T>, a: T, b: T, c: T, d: T) {
    m.xor(m.xor(a, b), m.xor(c, d)) == m.xor(m.xor(a, c), m.xor(b, d))
  }

  ghost predicate ClockLinear<T>(m: Machine<T>, a: T, b: T) {
    m.clock(m.xor(a, b)) == m.xor(m.clock(a), m.clock(b))
  }

  function Bit<T>(m: Machine<T>, b: bool): T {
    if b then m.one else m.zero
  }

  // The register after all bits have been fed, first bit first.
  function Feed<T>(m: Machine<T>, r: T, bits: seq<bool>): T
    decreases bits
  {
    if bits == [] then r else Feed(m, m.clock(m.xor(r, Bit(m, bits[0]))), bits[1..])
  }

  function Zeros(n: nat): seq<bool> {
    seq(n, i => false)
  }

  function Xor(a: seq<bool>, b: seq<bool>): (c: seq<bool>)
    requires |a| == |b|
  {
    seq(|a|, i requires 0 <= i < |a| => a[i] != b[i])
  }

  lemma {:induction false} FeedAppend<T>(m: Machine<T>, r: T, a: seq<bool>, b: seq<bool>)
    ensures Feed(m, r, a + b) == Feed(m, Feed(m, r, a), b)
    decreases a
  {
    if a == [] {
      assert a + b == b;
    } else {
      assert (a + b)[1..] == a[1..] + b;
      FeedAppend(m, m.clock(m.xor(r, Bit(m, a[0]))), a[1..], b);
    }
  }

  lemma {:induction false} FeedLinear<T(!new)>(m: Machine<T>, r: T, s: T, a: seq<bool>, b: seq<bool>)
    requires Linear(m) && |a| == |b|
    ensures Feed(m, m.xor(r, s), Xor(a, b)) == m.xor(Feed(m, r, a), Feed(m, s, b))
    decreases a
  {
    if a != [] {
      var x, y := Bit(m, a[0]), Bit(m, b[0]);
      assert Bit(m, a[0] != b[0]) == m.xor(x, y);
      assert Medial(m, r, s, x, y) && ClockLinear(m, m.xor(r, x), m.xor(s, y));
      assert Xor(a, b)[1..] == Xor(a[1..], b[1..]);
      FeedLinear(m, m.clock(m.xor(r, x)), m.clock(m.xor(s, y)), a[1..], b[1..]);
    }
  }

  // Clocking without input keeps a zero register zero and a nonzero register nonzero.
  lemma {:induction false} FeedZeros<T(!new)>(m: Machine<T>, r: T, n: nat)
    requires Linear(m)
    ensures Feed(m, r, Zeros(n)) == m.zero <==> r == m.zero
    decreases n
  {
    assert ClockLinear(m, m.zero, m.zero);
    if n > 0 {
      assert Zeros(n)[1..] == Zeros(n - 1);
      FeedZeros(m, m.clock(m.xor(r, m.zero)), n - 1);
    }
  }

  // Equal inputs keep different registers different.
  lemma FeedInjective<T(!new)>(m: Machine<T>, r: T, s: T, a: seq<bool>)
    requires Linear(m) && Feed(m, r, a) == Feed(m, s, a)
    ensures r == s
  {
    FeedLinear(m, r, s, a, a);
    assert Xor(a, a) == Zeros(|a|);
    FeedZeros(m, m.xor(r, s), |a|);
  }

  // `fits(n, r)` says that only the low n positions of register r may be occupied. A machine of the
  // given width cannot empty such a register early: the clock moves every position down by one and
  // only a one falling out of the lowest position makes the highest position occupied.
  ghost predicate Shifts<T(!new)>(m: Machine<T>, fits: (nat, T) -> bool, width: nat) {
    && (forall r :: fits(0, r) <==> r == m.zero)
    && (forall n: nat, r :: n < width && fits(n, m.clock(r)) ==> fits(n + 1, r))
    && (forall n: nat, r, b :: 0 < n && fits(n, m.xor(r, Bit(m, b))) ==> fits(n, r))
    && (forall n: nat :: n < width ==> !fits(n, m.clock(m.one)))
  }

  lemma {:induction false} EmptiedRegisterFits<T(!new)>(m: Machine<T>, fits: (nat, T) -> bool, width: nat,
                                                        r: T, bits: seq<bool>)
    requires Linear(m) && Shifts(m, fits, width) && |bits| <= width
    requires Feed(m, r, bits) == m.zero
    ensures fits(|bits|, r)
    decreases bits
  {
    if bits != [] {
      var x := m.xor(r, Bit(m, bits[0]));
      EmptiedRegisterFits(m, fits, width, m.clock(x), bits[1..]);
      assert fits(|bits| - 1 + 1, x);
    }
  }

  // No more than `width` bits, not all zero, leave an initially zero register nonzero.
  lemma {:induction false} ShortInputIsSeen<T(!new)>(m: Machine<T>, fits: (nat, T) -> bool, width: nat,
                                                     bits: seq<bool>)
    requires Linear(m) && Shifts(m, fits, width) && |bits| <= width
    requires Feed(m, m.zero, bits) == m.zero
    ensures bits == Zeros(|bits|)
    decreases bits
  {
    if bits != [] {
      var x := Bit(m, bits[0]);
      assert m.xor(m.zero, x) == x;
      EmptiedRegisterFits(m, fits, width, m.clock(x), bits[1..]);
      assert !bits[0];
      FeedZeros(m, m.zero, 1);
      assert ClockLinear(m, m.zero, m.zero);
      ShortInputIsSeen(m, fits, width, bits[1..]);
    }
  }

  lemma WindowsDiffer<T(!new)>(m: Machine<T>, fits: (nat, T) -> bool, width: nat,
                               r: T, a: seq<bool>, b: seq<bool>)
    requires Linear(m) && Shifts(m, fits, width)
    requires |a| == |b| <= width && Feed(m, r, a) == Feed(m, r, b)
    ensures a == b
  {
    FeedLinear(m, r, r, a, b);
    var d := Xor(a, b);
    ShortInputIsSeen(m, fits, width, d);
    assert forall i | 0 <= i < |a| :: (a[i] != b[i]) == d[i];
  }

  // Two inputs that differ, but only inside a window of at most `width` consecutive bits, leave
  // the register in different states: every burst error up to the register's width is detected.
  lemma BurstIsDetected<T(!new)>(m: Machine<T>, fits: (nat, T) -> bool, width: nat, r: T,
                                 before: seq<bool>, a: seq<bool>, b: seq<bool>, after: seq<bool>)
    requires Linear(m) && Shifts(m, fits, width)
    requires |a| == |b| <= width && a != b
    ensures Feed(m, r, before + a + after) != Feed(m, r, before + b + after)
  {
    FeedAppend(m, r, before + a, after);
    FeedAppend(m, r, before + b, after);
    FeedAppend(m, r, before, a);
    FeedAppend(m, r, before, b);
    var s := Feed(m, r, before);
    if Feed(m, s, a) == Feed(m, s, b) {
      WindowsDiffer(m, fits, width, s, a, b);
      assert false;
    }
    if Feed(m, Feed(m, s, a), after) == Feed(m, Feed(m, s, b), after) {
      FeedInjective(m, Feed(m, s, a), Feed(m, s, b), after);
    }
  }
}
