// The PID filter as text: the runs of selected PIDs, in ascending order, as hexadecimal numbers and
// ranges of them separated by single spaces.
module PidFilter {
  import opened Bytes

  datatype Range = Range(first: nat, last: nat)

  // ---------------------------------------------------------------- the text and its reading

  function Digit(d: nat): char
    requires d < 16
  {
    "0123456789abcdef"[d]
  }

  function DigitValue(c: char): Option<nat> {
    if '0' <= c <= '9' then Some((c - '0') as nat)
    else if 'a' <= c <= 'f' then Some((c - 'a') as nat + 10)
    else None
  }

  function Hex(n: nat): (s: string)
    requires n < 0x1_0000
    ensures |s| == 6
  {
    ['0', 'x', Digit(n / 0x1000), Digit(n / 0x100 % 16), Digit(n / 0x10 % 16), Digit(n % 16)]
  }

  function ReadHex(s: string): Option<nat> {
    if |s| < 6 || s[..2] != "0x" then None
    else
      match (DigitValue(s[2]), DigitValue(s[3]), DigitValue(s[4]), DigitValue(s[5]))
      case (Some(a), Some(b), Some(c), Some(d)) => Some(a * 0x1000 + b * 0x100 + c * 0x10 + d)
      case _ => None
  }

  predicate IsRange(r: Range) {
    r.first <= r.last < 0x1_0000
  }

  // One entry with the space behind it.
  function Entry(r: Range): string
    requires IsRange(r)
  {
    if r.first == r.last then Hex(r.first) + " " else Hex(r.first) + "-" + Hex(r.last) + " "
  }

  predicate AreRanges(rs: seq<Range>) {
    forall i | 0 <= i < |rs| :: IsRange(rs[i])
  }

  function Entries(rs: seq<Range>): string
    requires AreRanges(rs)
  {
    if rs == [] then "" else Entries(rs[..|rs| - 1]) + Entry(rs[|rs| - 1])
  }

  // The text sent: without the last space.
  function Text(rs: seq<Range>): string
    requires AreRanges(rs) && rs != []
  {
    var t := Entries(rs);
    EntriesLength(rs);
    t[..|t| - 1]
  }

  // How a device reads the text: entries separated by single spaces.
  function Read(s: string): Option<seq<Range>>
    decreases |s|
  {
    match ReadHex(s)
    case None => None
    case Some(first) =>
      if |s| == 6 then Some([Range(first, first)])
      else if s[6] == ' ' then Prepend(Range(first, first), Read(s[7..]))
      else if s[6] != '-' then None
      else
        match ReadHex(s[7..])
        case None => None
        case Some(last) =>
          if |s| == 13 then Some([Range(first, last)])
          else if s[13] == ' ' then Prepend(Range(first, last), Read(s[14..]))
          else None
  }

  function Prepend(r: Range, rs: Option<seq<Range>>): Option<seq<Range>> {
    if rs.Some? then Some([r] + rs.value) else None
  }

  // Seven characters for a single PID, fourteen for a longer run.
  function Units(rs: seq<Range>): nat {
    if rs == [] then 0
    else Units(rs[..|rs| - 1]) + if rs[|rs| - 1].first == rs[|rs| - 1].last then 1 else 2
  }

  lemma {:induction false} EntriesLength(rs: seq<Range>)
    requires AreRanges(rs)
    ensures |Entries(rs)| == 7 * Units(rs) && Units(rs) >= |rs|
  {
    if rs != [] {
      EntriesLength(rs[..|rs| - 1]);
    }
  }

  lemma Regroup(a: string, b: string, c: string)
    ensures (a + b) + c == a + (b + c)
  {
  }

  lemma {:induction false} EntriesFromFront(rs: seq<Range>)
    requires AreRanges(rs) && rs != []
    ensures Entries(rs) == Entry(rs[0]) + Entries(rs[1..])
  {
    hide Entry;
    var n := |rs| - 1;
    if n == 0 {
      assert Entries(rs[..0]) == "" && rs[1..] == [];
    } else {
      hide Entries;
      var mid, last := rs[1..n], rs[n];
      EntriesFromFront(rs[..n]);
      assert rs[..n][1..] == mid && rs == rs[..n] + [last] && rs[1..] == mid + [last];
      OneMoreEntry(rs[..n], last);
      OneMoreEntry(mid, last);
      Regroup(Entry(rs[0]), Entries(mid), Entry(last));
    }
  }

  lemma DigitRoundTrip(d: nat)
    requires d < 16
    ensures DigitValue(Digit(d)) == Some(d)
  {
  }

  lemma HexRoundTrip(n: nat, rest: string)
    requires n < 0x1_0000
    ensures ReadHex(Hex(n) + rest) == Some(n)
  {
    var s := Hex(n) + rest;
    DigitRoundTrip(n / 0x1000);
    DigitRoundTrip(n / 0x100 % 16);
    DigitRoundTrip(n / 0x10 % 16);
    DigitRoundTrip(n % 16);
    assert s[..2] == "0x";
    DigitsOf(n);
  }

  lemma DigitsOf(n: nat)
    ensures n / 0x1000 * 0x1000 + n / 0x100 % 16 * 0x100 + n / 0x10 % 16 * 0x10 + n % 16 == n
  {
    assert n / 0x10 == n / 0x100 * 16 + n / 0x10 % 16;
    assert n / 0x100 == n / 0x1000 * 16 + n / 0x100 % 16;
  }

  // Four digits from the highest down, behind "0x".
  lemma HexLayout(n: nat)
    requires n < 0x1_0000
    ensures var s := Hex(n);
            && s[..2] == "0x"
            && (forall i | 2 <= i < 6 :: '0' <= s[i] <= '9' || 'a' <= s[i] <= 'f')
            && 0x1000 * Worth(s[2]) + 0x100 * Worth(s[3]) + 0x10 * Worth(s[4]) + Worth(s[5]) == n
  {
    WorthOfDigit(n / 0x1000);
    WorthOfDigit(n / 0x100 % 16);
    WorthOfDigit(n / 0x10 % 16);
    WorthOfDigit(n % 16);
    DigitsOf(n);
  }

  // What a hexadecimal digit is worth.
  function Worth(c: char): int {
    if c <= '9' then c as int - 0x30 else c as int - 0x61 + 10
  }

  lemma WorthOfDigit(d: nat)
    requires d < 16
    ensures var c := Digit(d); ('0' <= c <= '9' || 'a' <= c <= 'f') && Worth(c) == d
  {
  }

  // A range of one PID is its number, a longer one two numbers with a minus sign between; one space
  // separates the ranges.
  lemma TextLayout(rs: seq<Range>)
    requires AreRanges(rs) && rs != []
    ensures var r := rs[0];
            var one := if r.first == r.last then Hex(r.first) else Hex(r.first) + "-" + Hex(r.last);
            Text(rs) == if |rs| == 1 then one else one + " " + Text(rs[1..])
  {
    hide Hex, Entries;
    var e, rest := Entry(rs[0]), rs[1..];
    EntriesFromFront(rs);
    EntriesLength(rs);
    EntriesLength(rest);
    NoEntries();
    if rest != [] {
      assert (e + Entries(rest))[..|e| + |Entries(rest)| - 1] == e + Entries(rest)[..|Entries(rest)| - 1];
    }
  }

  lemma NoEntries()
    ensures Entries([]) == ""
  {
  }

  // Any list of ranges is read back from its text.
  lemma {:induction false} ReadText(rs: seq<Range>)
    requires AreRanges(rs) && rs != []
    ensures Read(Text(rs)) == Some(rs)
    decreases |rs|
  {
    hide Read, ReadHex, Entry, Entries;
    var r, rest := rs[0], rs[1..];
    var t := Text(rs);
    EntriesFromFront(rs);
    EntriesLength(rs);
    EntriesLength(rest);
    var e := Entry(r);
    if rest == [] {
      assert rs == [r] && t == e[..|e| - 1] by { assert Entries([]) == ""; }
      ReadLastEntry(r);
    } else {
      assert t == e + Text(rest);
      ReadEntry(r, Text(rest));
      ReadText(rest);
      assert rs == [r] + rest;
    }
  }

  lemma ReadLastEntry(r: Range)
    requires IsRange(r)
    ensures Read(Entry(r)[..|Entry(r)| - 1]) == Some([r])
  {
    var t := Entry(r)[..|Entry(r)| - 1];
    HexRoundTrip(r.first, "");
    HexRoundTrip(r.last, "");
    assert Hex(r.first) + "" == Hex(r.first) && Hex(r.last) + "" == Hex(r.last);
    if r.first == r.last {
      assert t == Hex(r.first);
    } else {
      assert t == Hex(r.first) + ("-" + Hex(r.last));
      HexRoundTrip(r.first, "-" + Hex(r.last));
      assert t[7..] == Hex(r.last);
    }
  }

  lemma ReadEntry(r: Range, rest: string)
    requires IsRange(r)
    ensures Read(Entry(r) + rest) == Prepend(r, Read(rest))
  {
    hide Hex, ReadHex;
    var t := Entry(r) + rest;
    if r.first == r.last {
      assert t == Hex(r.first) + (" " + rest);
      HexRoundTrip(r.first, " " + rest);
      assert t[7..] == rest;
    } else {
      assert t == Hex(r.first) + ("-" + Hex(r.last) + " " + rest);
      HexRoundTrip(r.first, "-" + Hex(r.last) + " " + rest);
      assert t[7..] == Hex(r.last) + (" " + rest);
      HexRoundTrip(r.last, " " + rest);
      assert t[13] == ' ' && t[14..] == rest;
    }
  }

  // ---------------------------------------------------------------- the runs of selected PIDs

  predicate Covers(rs: seq<Range>, p: int) {
    exists i :: 0 <= i < |rs| && rs[i].first <= p <= rs[i].last
  }

  // From position `from` on, rs are exactly the maximal runs of selected positions, in order.
  ghost predicate IsRunsFrom(selected: seq<bool>, from: nat, rs: seq<Range>) {
    && (forall i | 0 <= i < |rs| :: from <= rs[i].first <= rs[i].last < |selected|)
    && (forall i, j | 0 <= i < j < |rs| :: rs[i].last + 1 < rs[j].first)
    && (forall p | from <= p < |selected| :: selected[p] <==> Covers(rs, p))
  }

  ghost predicate IsRuns(selected: seq<bool>, rs: seq<Range>) {
    IsRunsFrom(selected, 0, rs)
  }

  lemma FirstRun(selected: seq<bool>, from: nat, a: seq<Range>, b: seq<Range>)
    requires IsRunsFrom(selected, from, a) && IsRunsFrom(selected, from, b) && a != []
    ensures b != [] && b[0].first <= a[0].first && (b[0].first == a[0].first ==> b[0].last <= a[0].last)
  {
    var p := a[0].first;
    assert Covers(a, p);
    assert Covers(b, p);
    var i :| 0 <= i < |b| && b[i].first <= p <= b[i].last;
    assert i > 0 ==> b[0].last + 1 < b[i].first;
    var q := a[0].last + 1;
    assert !Covers(a, q);
    assert b[0].first <= q <= b[0].last ==> Covers(b, q);
  }

  lemma RestOfRuns(selected: seq<bool>, from: nat, rs: seq<Range>)
    requires IsRunsFrom(selected, from, rs) && rs != []
    ensures IsRunsFrom(selected, rs[0].last + 1, rs[1..])
  {
    var rest := rs[1..];
    forall p | rs[0].last + 1 <= p < |selected|
      ensures Covers(rest, p) <==> Covers(rs, p)
    {
      if Covers(rs, p) {
        var i :| 0 <= i < |rs| && rs[i].first <= p <= rs[i].last;
        assert rest[i - 1] == rs[i];
      }
      if Covers(rest, p) {
        var i :| 0 <= i < |rest| && rest[i].first <= p <= rest[i].last;
        assert rs[i + 1] == rest[i];
      }
    }
    forall i | 0 <= i < |rest|
      ensures rs[0].last + 1 <= rest[i].first
    {
      assert rest[i] == rs[i + 1];
    }
  }

  // A selection has only one list of runs.
  lemma {:induction false} RunsAreUnique(selected: seq<bool>, from: nat, a: seq<Range>, b: seq<Range>)
    requires IsRunsFrom(selected, from, a) && IsRunsFrom(selected, from, b)
    ensures a == b
    decreases |a|
  {
    if a == [] {
      if b != [] {
        FirstRun(selected, from, b, a);
      }
    } else {
      FirstRun(selected, from, a, b);
      FirstRun(selected, from, b, a);
      RestOfRuns(selected, from, a);
      RestOfRuns(selected, from, b);
      RunsAreUnique(selected, a[0].last + 1, a[1..], b[1..]);
      assert a == [a[0]] + a[1..] && b == [b[0]] + b[1..];
    }
  }

  // ---------------------------------------------------------------- the scan

  // The state of the loop after the first n positions: finished runs and the one still growing.
  datatype Scan = Scan(closed: seq<Range>, open: Option<Range>)

  function ScanTo(selected: seq<bool>, n: nat): Scan
    requires n <= |selected|
  {
    if n == 0 then Scan([], None)
    else
      var s := ScanTo(selected, n - 1);
      if selected[n - 1] then
        s.(open := Some(Range(if s.open.Some? then s.open.value.first else n - 1, n - 1)))
      else if s.open.Some? then Scan(s.closed + [s.open.value], None)
      else s
  }

  function AllRuns(s: Scan): seq<Range> {
    s.closed + if s.open.Some? then [s.open.value] else []
  }

  function Runs(selected: seq<bool>): seq<Range> {
    AllRuns(ScanTo(selected, |selected|))
  }

  predicate InOpen(open: Option<Range>, p: int) {
    open.Some? && open.value.first <= p <= open.value.last
  }

  ghost predicate ScanOk(selected: seq<bool>, n: nat, s: Scan) {
    && n <= |selected|
    && (forall i | 0 <= i < |s.closed| :: s.closed[i].first <= s.closed[i].last && s.closed[i].last + 1 < n)
    && (forall i, j | 0 <= i < j < |s.closed| :: s.closed[i].last + 1 < s.closed[j].first)
    && (s.open.Some? ==> s.open.value.first <= s.open.value.last == n - 1)
    && (s.open.Some? ==> forall i | 0 <= i < |s.closed| :: s.closed[i].last + 1 < s.open.value.first)
    && (forall p | 0 <= p < n :: selected[p] <==> Covers(s.closed, p) || InOpen(s.open, p))
  }

  lemma CoversAppend(rs: seq<Range>, r: Range, p: int)
    ensures Covers(rs + [r], p) <==> Covers(rs, p) || r.first <= p <= r.last
  {
    if Covers(rs, p) {
      var i :| 0 <= i < |rs| && rs[i].first <= p <= rs[i].last;
      assert (rs + [r])[i] == rs[i];
    }
    if r.first <= p <= r.last {
      assert (rs + [r])[|rs|] == r;
    }
  }

  lemma {:induction false} ScanIsRuns(selected: seq<bool>, n: nat)
    requires n <= |selected|
    ensures ScanOk(selected, n, ScanTo(selected, n))
    decreases n
  {
    if n > 0 {
      ScanIsRuns(selected, n - 1);
      ScanStep(selected, n, ScanTo(selected, n - 1));
    }
  }

  lemma ScanStep(selected: seq<bool>, n: nat, s: Scan)
    requires 0 < n <= |selected| && ScanOk(selected, n - 1, s) && s == ScanTo(selected, n - 1)
    ensures ScanOk(selected, n, ScanTo(selected, n))
  {
    var s' := ScanTo(selected, n);
    assert !Covers(s.closed, n - 1);
    if !selected[n - 1] && s.open.Some? {
      forall p
        ensures Covers(s'.closed, p) <==> Covers(s.closed, p) || InOpen(s.open, p)
      {
        CoversAppend(s.closed, s.open.value, p);
      }
    }
  }

  lemma RunsAreRuns(selected: seq<bool>)
    ensures IsRuns(selected, Runs(selected))
  {
    var s := ScanTo(selected, |selected|);
    ScanIsRuns(selected, |selected|);
    forall p
      ensures Covers(AllRuns(s), p) <==> Covers(s.closed, p) || InOpen(s.open, p)
    {
      if s.open.Some? {
        CoversAppend(s.closed, s.open.value, p);
      } else {
        assert AllRuns(s) == s.closed;
      }
    }
  }

  // What is sent for a nonempty selection is read back as its maximal runs, and those cover exactly
  // the selected PIDs.
  lemma FilterMeaning(selected: seq<bool>)
    requires |selected| <= 0x1_0000 && true in selected
    ensures var rs := Runs(selected);
            && AreRanges(rs) && rs != []
            && Read(Text(rs)) == Some(rs)
            && IsRuns(selected, rs)
  {
    var rs := Runs(selected);
    RunsAreRuns(selected);
    var p :| 0 <= p < |selected| && selected[p];
    assert Covers(rs, p);
    ReadText(rs);
  }

  // ---------------------------------------------------------------- printing into the buffer

  const PID_COUNT: nat := 0x2000
  const BUFFER_SIZE: nat := 1024
  const NO_PID: nat := 0xFFFF

  // More units than this do not fit the text buffer.
  const MAX_UNITS: nat := 146

  ghost predicate StringAt(buffer: seq<char>, at: nat, text: string) {
    at + |text| < |buffer| && buffer[at..at + |text|] == text && buffer[at + |text|] == '\0'
  }

  // What the C library's bounded printf writes when it is offered `size` bytes: as much of the text as
  // fits with a terminator behind it.
  function Cut(text: string, size: nat): (cut: string)
    ensures |cut| == if size == 0 then 0 else Min(|text|, size - 1) + 1
  {
    if size == 0 then "" else text[..Min(|text|, size - 1)] + "\0"
  }

  function Written(was: seq<char>, ptr: nat, cut: string): (now: seq<char>)
    requires ptr + |cut| <= |was|
    ensures |now| == |was| && now[..ptr] == was[..ptr] && now[ptr..ptr + |cut|] == cut
  {
    was[..ptr] + cut + was[ptr + |cut|..]
  }

  method Vsnprintf(buffer: array<char>, ptr: nat, size: nat, text: string)
    requires ptr + size <= buffer.Length
    modifies buffer
    ensures buffer[..] == Written(old(buffer[..]), ptr, Cut(text, size))
  {
    if size > 0 {
      var n := Min(|text|, size - 1);
      forall i | 0 <= i < n {
        buffer[ptr + i] := text[i];
      }
      buffer[ptr + n] := '\0';
    }
  }

  method ZeroLast(buffer: array<char>)
    requires buffer.Length > 0
    modifies buffer
    ensures buffer[..] == old(buffer[..])[buffer.Length - 1 := '\0']
  {
    buffer[buffer.Length - 1] := '\0';
  }

  // What the library's own bounded printf leaves in the buffer. One byte less than the room is
  // offered to the C library; if even that and its last byte do not hold the text, the last is zeroed.
  function Printout(was: seq<char>, ptr: nat, text: string): (now: seq<char>)
    requires ptr < |was|
    ensures |now| == |was|
  {
    var now := Written(was, ptr, Cut(text, |was| - ptr - 1));
    if ptr + |text| + 1 <= |was| then now else now[|was| - 1 := '\0']
  }

  // The text that is found there: a text just one character too long is cut like a longer one.
  lemma PrintoutString(was: seq<char>, ptr: nat, text: string)
    requires ptr + 1 < |was|
    ensures Printout(was, ptr, text)[..ptr] == was[..ptr]
    ensures StringAt(Printout(was, ptr, text), ptr, text[..Min(|text|, |was| - ptr - 2)])
  {
    var part := text[..Min(|text|, |was| - ptr - 2)];
    var cut := Cut(text, |was| - ptr - 1);
    var now := Written(was, ptr, cut);
    assert cut == part + "\0";
    hide Written, Cut;
    assert now[ptr..ptr + |cut|][..|part|] == now[ptr..ptr + |part|];
    assert now[ptr..ptr + |cut|][|part|] == now[ptr + |part|];
    var zeroed := now[|was| - 1 := '\0'];
    assert zeroed[ptr..ptr + |part|] == now[ptr..ptr + |part|] && zeroed[..ptr] == now[..ptr];
  }

  // hdhomerun_sprintf with the end of the buffer as limit. A text just one character too long is
  // reported as printed, and so is an empty text at the last byte, of which not even the terminator
  // is written.
  method Sprintf(buffer: array<char>, ptr: nat, text: string) returns (ok: bool)
    requires ptr <= buffer.Length && '\0' !in text
    modifies buffer
    ensures ok <==> ptr < buffer.Length && ptr + |text| + 1 <= buffer.Length
    ensures buffer[..] == if ptr == buffer.Length then old(buffer[..]) else Printout(old(buffer[..]), ptr, text)
  {
    if ptr >= buffer.Length {
      return false;
    }
    hide Written, Cut;
    Vsnprintf(buffer, ptr, buffer.Length - ptr - 1, text);
    if ptr + |text| + 1 > buffer.Length {
      ZeroLast(buffer);
      return false;
    }
    return true;
  }

  // strchr(ptr, 0)
  method StringEnd(buffer: array<char>, ptr: nat, ghost text: string) returns (end: nat)
    requires '\0' !in text && StringAt(buffer[..], ptr, text)
    ensures end == ptr + |text|
  {
    end := ptr;
    forall k | 0 <= k < |text|
      ensures buffer[ptr + k] == text[k]
    {
      assert buffer[..][ptr..ptr + |text|][k] == text[k];
    }
    while buffer[end] != '\0'
      invariant ptr <= end <= ptr + |text|
      decreases ptr + |text| - end
    {
      end := end + 1;
    }
  }

  lemma NoNul(r: Range)
    requires IsRange(r)
    ensures '\0' !in Entry(r)
  {
    hide Hex;
    NoNulInHex(r.first);
    NoNulInHex(r.last);
  }

  lemma NoNulInHex(n: nat)
    requires n < 0x1_0000
    ensures '\0' !in Hex(n)
  {
    forall i | 0 <= i < 6
      ensures Hex(n)[i] != '\0'
    {
      DigitRoundTrip(n / 0x1000);
      DigitRoundTrip(n / 0x100 % 16);
      DigitRoundTrip(n / 0x10 % 16);
      DigitRoundTrip(n % 16);
    }
  }

  // The one-off of Sprintf is out of reach: text lengths and positions are multiples of seven, and
  // 1023 is not.
  method Append(buffer: array<char>, ptr: nat, r: Range, ghost done: seq<Range>) returns (ok: bool, next: nat)
    requires buffer.Length == BUFFER_SIZE && IsRange(r) && AreRanges(done)
    requires ptr == 7 * Units(done) <= BUFFER_SIZE && buffer[..ptr] == Entries(done)
    modifies buffer
    ensures ok <==> Units(done + [r]) <= MAX_UNITS
    ensures ok ==> next == 7 * Units(done + [r]) < BUFFER_SIZE
    ensures ok ==> buffer[..next] == Entries(done + [r]) && buffer[next] == '\0'
  {
    NoNul(r);
    OneMoreEntry(done, r);
    RoomForUnits(Units(done + [r]));
    hide Hex, Entry, Entries, Units;
    ok, next := AppendText(buffer, ptr, Entry(r));
  }

  // sprintf and the search for the new end, for a text that leaves the last byte alone if it fits.
  method AppendText(buffer: array<char>, ptr: nat, text: string) returns (ok: bool, next: nat)
    requires ptr <= buffer.Length && '\0' !in text && ptr + |text| + 1 != buffer.Length
    modifies buffer
    ensures ok <==> ptr + |text| + 1 <= buffer.Length
    ensures ok ==> next == ptr + |text| < buffer.Length
    ensures ok ==> buffer[..next] == old(buffer[..ptr]) + text && buffer[next] == '\0'
  {
    hide Printout, StringAt;
    ghost var was := buffer[..];
    ok := Sprintf(buffer, ptr, text);
    next := ptr;
    if ok {
      PrintoutString(was, ptr, text);
      assert text[..|text|] == text;
      next := StringEnd(buffer, ptr, text);
      TextAppended(buffer[..], ptr, was[..ptr], text);
    }
  }

  // Lengths are multiples of seven, so that a text that fits at all leaves the last byte alone.
  lemma RoomForUnits(units: nat)
    ensures 7 * units + 1 <= BUFFER_SIZE <==> units <= MAX_UNITS
    ensures units <= MAX_UNITS ==> 7 * units + 2 <= BUFFER_SIZE
  {
  }

  lemma OneMoreEntry(done: seq<Range>, r: Range)
    requires AreRanges(done) && IsRange(r)
    ensures AreRanges(done + [r]) && Entries(done + [r]) == Entries(done) + Entry(r)
    ensures |Entries(done)| == 7 * Units(done) && |Entries(done + [r])| == 7 * Units(done + [r])
  {
    hide Entry;
    var all := done + [r];
    assert all[..|done|] == done && all[|done|] == r;
    EntriesLength(done);
    EntriesLength(all);
  }

  lemma TextAppended(now: seq<char>, ptr: nat, before: string, text: string)
    requires ptr <= |now| && now[..ptr] == before && StringAt(now, ptr, text)
    ensures now[..ptr + |text|] == before + text && now[ptr + |text|] == '\0'
  {
    assert now[..ptr + |text|] == now[..ptr] + now[ptr..ptr + |text|];
  }

  lemma {:induction false} NoNulInEntries(rs: seq<Range>)
    requires AreRanges(rs)
    ensures '\0' !in Entries(rs)
  {
    hide Entry;
    if rs != [] {
      NoNulInEntries(rs[..|rs| - 1]);
      NoNul(rs[|rs| - 1]);
    }
  }

  // The C string at the start of the buffer.
  function CString(s: seq<char>): string {
    if s == [] || s[0] == '\0' then "" else [s[0]] + CString(s[1..])
  }

  lemma {:induction false} CStringOf(s: seq<char>, text: string)
    requires StringAt(s, 0, text) && '\0' !in text
    ensures CString(s) == text
    decreases |text|
  {
    assert s[..|text|] == text;
    if text != "" {
      assert s[0] == text[0];
      assert s[1..][..|text| - 1] == text[1..];
      CStringOf(s[1..], text[1..]);
      assert text == [text[0]] + text[1..];
    }
  }

  lemma UnitsAppend(rs: seq<Range>, r: Range)
    ensures Units(rs + [r]) == Units(rs) + if r.first == r.last then 1 else 2
  {
    assert (rs + [r])[..|rs|] == rs;
  }

  // Scanning on never makes the text shorter.
  lemma {:induction false} UnitsGrow(selected: seq<bool>, n: nat)
    requires n <= |selected|
    ensures Units(AllRuns(ScanTo(selected, n))) <= Units(Runs(selected))
    decreases |selected| - n
  {
    if n < |selected| {
      UnitsGrow(selected, n + 1);
      var s, s' := ScanTo(selected, n), ScanTo(selected, n + 1);
      ScanIsRuns(selected, n);
      if s.open.Some? {
        UnitsAppend(s.closed, s.open.value);
      }
      if s'.open.Some? {
        UnitsAppend(s'.closed, s'.open.value);
      } else {
        assert AllRuns(s') == AllRuns(s);
      }
      assert s.open.None? ==> AllRuns(s) == s.closed;
    }
  }

  // What the loop has in hand after n positions: the text of the finished runs and the open run.
  ghost predicate Printed(selected: seq<bool>, n: nat, filter: seq<char>, untouched: seq<char>,
                          ptr: nat, rangeBegin: nat, rangeEnd: nat)
    requires n <= |selected| <= PID_COUNT
  {
    var s := ScanTo(selected, n);
    && AreRanges(s.closed)
    && ptr == 7 * Units(s.closed) < BUFFER_SIZE && |filter| == BUFFER_SIZE
    && filter[..ptr] == Entries(s.closed)
    && (s.closed != [] ==> filter[ptr] == '\0')
    && (s.closed == [] ==> filter == untouched)
    && s.open == (if rangeBegin == NO_PID then None else Some(Range(rangeBegin, rangeEnd)))
    && (rangeBegin == NO_PID || rangeBegin <= rangeEnd < n)
  }

  // hdhomerun_device_set_tuner_filter_by_array: the text handed to the device, or None when it was
  // too long. With no PID selected the buffer is sent as it was found.
  method SetTunerFilterByArray(filterArray: array<bool>, filter: array<char>) returns (sent: Option<string>)
    requires filterArray.Length == PID_COUNT && filter.Length == BUFFER_SIZE
    modifies filter
    ensures var rs := Runs(filterArray[..]);
            && AreRanges(rs)
            && (rs == [] ==> sent == Some(CString(old(filter[..]))))
            && (rs != [] ==> sent == if Units(rs) <= MAX_UNITS then Some(Text(rs)) else None)
  {
    ghost var selected := filterArray[..];
    ghost var untouched := filter[..];
    var ptr: nat, rangeBegin: nat, rangeEnd: nat := 0, NO_PID, NO_PID;
    RunsAreRuns(selected);
    var i := 0;
    while i <= 0x1FFF
      invariant 0 <= i <= PID_COUNT
      invariant Printed(selected, i, filter[..], untouched, ptr, rangeBegin, rangeEnd)
    {
      hide Printed, Runs, IsRunsFrom;
      var ok;
      ok, ptr, rangeBegin, rangeEnd := Visit(filter, i, filterArray[i], ptr, rangeBegin, rangeEnd, selected, untouched);
      if !ok {
        return None;
      }
      i := i + 1;
    }
    sent := Finish(filter, ptr, rangeBegin, rangeEnd, selected, untouched);
  }

  // One turn of the loop.
  method Visit(filter: array<char>, i: nat, isSelected: bool, ptr: nat, rangeBegin: nat, rangeEnd: nat,
               ghost selected: seq<bool>, ghost untouched: seq<char>)
    returns (ok: bool, ptr': nat, rangeBegin': nat, rangeEnd': nat)
    requires filter.Length == BUFFER_SIZE && |selected| == PID_COUNT && i < PID_COUNT && isSelected == selected[i]
    requires Printed(selected, i, filter[..], untouched, ptr, rangeBegin, rangeEnd)
    modifies filter
    ensures ok ==> Printed(selected, i + 1, filter[..], untouched, ptr', rangeBegin', rangeEnd')
    ensures !ok ==> Units(Runs(selected)) > MAX_UNITS
  {
    hide Entry, Entries, Runs, Hex;
    ok, ptr', rangeBegin', rangeEnd' := true, ptr, rangeBegin, rangeEnd;
    if !isSelected {
      if rangeBegin == NO_PID {
        return;
      }
      UnitsGrow(selected, i);
      ok, ptr' := Append(filter, ptr, Range(rangeBegin, rangeEnd), ScanTo(selected, i).closed);
      rangeBegin' := NO_PID;
      rangeEnd' := NO_PID;
      return;
    }
    if rangeBegin == NO_PID {
      rangeBegin' := i;
      rangeEnd' := i;
      return;
    }
    rangeEnd' := i;
  }

  // The part behind the loop: the run that reaches the last PID, and the removal of the last space.
  method Finish(filter: array<char>, end: nat, rangeBegin: nat, rangeEnd: nat,
                ghost selected: seq<bool>, ghost untouched: seq<char>) returns (sent: Option<string>)
    requires filter.Length == BUFFER_SIZE && |selected| == PID_COUNT
    requires Printed(selected, PID_COUNT, filter[..], untouched, end, rangeBegin, rangeEnd)
    modifies filter
    ensures var rs := Runs(selected);
            && AreRanges(rs)
            && (rs == [] ==> sent == Some(CString(untouched)))
            && (rs != [] ==> sent == if Units(rs) <= MAX_UNITS then Some(Text(rs)) else None)
  {
    hide Entry;
    ghost var rs := Runs(selected);
    ghost var closed := ScanTo(selected, PID_COUNT).closed;
    var ptr := end;
    EntriesLength(closed);
    if rangeBegin != NO_PID {
      var ok;
      ok, ptr := Append(filter, end, Range(rangeBegin, rangeEnd), closed);
      if !ok {
        return None;
      }
    } else {
      assert rs == closed;
    }
    EntriesLength(rs);
    NoNulInEntries(rs);
    if ptr > 0 {
      ptr := ptr - 1;
      filter[ptr] := '\0';
      assert filter[..ptr] == Entries(rs)[..ptr];
      CStringOf(filter[..], Text(rs));
    }
    sent := Some(CString(filter[..]));
  }
}
