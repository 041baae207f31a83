/** The hybrid logical clock and its sortable string form. */
module Hlc {
  import opened Base
  import Text

  datatype HLC = HLC(wallTime: nat, counter: nat, deviceId: string)

  // ---------------------------------------------------------------- ordering

  /** The `<` of strings: lexicographic, a proper prefix is smaller. */
  predicate StringLess(s: string, t: string) {
    t != "" && (s == "" || s[0] < t[0] || (s[0] == t[0] && StringLess(s[1..], t[1..])))
  }

  function HlcCompare(a: HLC, b: HLC): int {
    if a.wallTime != b.wallTime then a.wallTime - b.wallTime
    else if a.counter != b.counter then a.counter - b.counter
    else if StringLess(a.deviceId, b.deviceId) then -1
    else if StringLess(b.deviceId, a.deviceId) then 1
    else 0
  }

  function HlcMax(a: HLC, b: HLC): HLC {
    if HlcCompare(a, b) >= 0 then a else b
  }

  lemma {:induction false} StringLessTotal(s: string, t: string)
    ensures !(StringLess(s, t) && StringLess(t, s))
    ensures s == t || StringLess(s, t) || StringLess(t, s)
    ensures s == t ==> !StringLess(s, t)
  {
    if s != "" && t != "" {
      StringLessTotal(s[1..], t[1..]);
      assert s == [s[0]] + s[1..] && t == [t[0]] + t[1..];
    }
  }

  lemma {:induction false} StringLessTransitive(s: string, t: string, u: string)
    requires StringLess(s, t) && StringLess(t, u)
    ensures StringLess(s, u)
  {
    if s != "" && s[0] == t[0] == u[0] {
      StringLessTransitive(s[1..], t[1..], u[1..]);
    }
  }

  /** `hlcCompare` is a total order on stamps: antisymmetric, transitive, zero only on equals. */
  lemma CompareIsTotalOrder(a: HLC, b: HLC, c: HLC)
    ensures HlcCompare(a, b) == 0 <==> a == b
    ensures HlcCompare(a, b) < 0 <==> HlcCompare(b, a) > 0
    ensures HlcCompare(a, b) < 0 && HlcCompare(b, c) < 0 ==> HlcCompare(a, c) < 0
    ensures HlcCompare(a, b) <= 0 && HlcCompare(b, c) <= 0 ==> HlcCompare(a, c) <= 0
  {
    StringLessTotal(a.deviceId, b.deviceId);
    StringLessTotal(b.deviceId, c.deviceId);
    StringLessTotal(a.deviceId, c.deviceId);
    if StringLess(a.deviceId, b.deviceId) && StringLess(b.deviceId, c.deviceId) {
      StringLessTransitive(a.deviceId, b.deviceId, c.deviceId);
    }
  }

  // ------------------------------------------------------------- string form

  function Digit(d: nat): char
    requires d < 10
  {
    '0' + d as char
  }

  /** `n.toString()`. */
  function Decimal(n: nat): (s: string)
    ensures s != "" && forall c :: c in s ==> '0' <= c <= '9'
  {
    if n < 10 then [Digit(n)] else Decimal(n / 10) + [Digit(n % 10)]
  }

  /** `s.padStart(width, '0')`. */
  function PadStart(s: string, width: nat): (p: string)
    ensures (forall c :: c in s ==> '0' <= c <= '9') ==> forall c :: c in p ==> '0' <= c <= '9'
    decreases width - |s|
  {
    if |s| >= width then s else PadStart("0" + s, width)
  }

  function HlcToString(h: HLC): string {
    PadStart(Decimal(h.wallTime), 15) + "-" + PadStart(Decimal(h.counter), 8) + "-" + h.deviceId
  }

  predicate IsDigit(c: char) { '0' <= c <= '9' }

  function DigitsFrom(s: string, acc: nat): nat {
    if s == "" || !IsDigit(s[0]) then acc
    else DigitsFrom(s[1..], 10 * acc + (s[0] as int - '0' as int))
  }

  function SkipSpace(s: string): string {
    if s != "" && s[0] in " \t\n\r" then SkipSpace(s[1..]) else s
  }

  /** `parseInt(s, 10)` on a part that holds no minus sign; `None` is NaN. */
  function ParseInt(s: string): Option<nat> {
    var t := SkipSpace(s);
    var u := if t != "" && t[0] == '+' then t[1..] else t;
    if u == "" || !IsDigit(u[0]) then None else Some(DigitsFrom(u, 0))
  }

  /** `None` stands for the thrown error. */
  function HlcFromString(s: string): Option<HLC> {
    var parts := Text.Split(s, '-');
    if |parts| < 3 then None
    else
      var wallTime, counter := ParseInt(parts[0]), ParseInt(parts[1]);
      if wallTime.None? || counter.None? then None
      else Some(HLC(wallTime.value, counter.value, Text.Join(parts[2..], '-')))
  }

  function Pow10(n: nat): nat {
    if n == 0 then 1 else 10 * Pow10(n - 1)
  }

  /** The fixed-width decimal form that padding produces for every number that fits. */
  function Fixed(n: nat, width: nat): (s: string)
    ensures |s| == width
  {
    if width == 0 then "" else Fixed(n / 10, width - 1) + [Digit(n % 10)]
  }

  lemma {:induction false} PadAppend(s: string, d: char, width: nat)
    requires width > 0
    ensures PadStart(s + [d], width) == PadStart(s, width - 1) + [d]
    decreases width - |s|
  {
    if |s| < width - 1 {
      PadAppend("0" + s, d, width);
      assert "0" + (s + [d]) == ("0" + s) + [d];
    }
  }

  lemma {:induction false} PadZero(width: nat)
    ensures PadStart("", width) == Fixed(0, width)
  {
    if width > 0 {
      PadZero(width - 1);
      PadAppend("", '0', width);
      assert "0" + "" == "" + ['0'];
    }
  }

  lemma {:induction false} PaddedIsFixed(n: nat, width: nat)
    requires n < Pow10(width) && width > 0
    ensures PadStart(Decimal(n), width) == Fixed(n, width)
  {
    if n < 10 {
      PadZero(width - 1);
      PadAppend("", Digit(n), width);
      assert "" + [Digit(n)] == [Digit(n)];
    } else {
      PaddedIsFixed(n / 10, width - 1);
      PadAppend(Decimal(n / 10), Digit(n % 10), width);
    }
  }

  lemma {:induction false} LessAppend(s: string, t: string, x: string, y: string)
    requires |s| == |t|
    ensures StringLess(s + x, t + y) <==> StringLess(s, t) || (s == t && StringLess(x, y))
  {
    if s == "" {
      assert s + x == x && t + y == y;
    } else {
      LessAppend(s[1..], t[1..], x, y);
      assert (s + x)[1..] == s[1..] + x && (t + y)[1..] == t[1..] + y;
      assert s == [s[0]] + s[1..] && t == [t[0]] + t[1..];
    }
  }

  lemma {:induction false} FixedOrder(m: nat, n: nat, width: nat)
    requires m < Pow10(width) && n < Pow10(width)
    ensures StringLess(Fixed(m, width), Fixed(n, width)) <==> m < n
    ensures Fixed(m, width) == Fixed(n, width) <==> m == n
  {
    if width > 0 {
      FixedOrder(m / 10, n / 10, width - 1);
      var s, t, x, y := Fixed(m / 10, width - 1), Fixed(n / 10, width - 1), [Digit(m % 10)], [Digit(n % 10)];
      LessAppend(s, t, x, y);
      assert (s + x)[..width - 1] == s && (t + y)[..width - 1] == t;
      assert (s + x)[width - 1] == x[0] && (t + y)[width - 1] == y[0];
      assert StringLess(x, y) <==> m % 10 < n % 10;
    }
  }

  /** The stamps whose fields fit the padding of `hlcToString`. */
  predicate InRange(h: HLC) {
    h.wallTime < 1_000_000_000_000_000 && h.counter < 1_0000_0000
  }

  lemma RangeIsPow10()
    ensures Pow10(15) == 1_000_000_000_000_000 && Pow10(8) == 1_0000_0000
  {
    assert Pow10(4) == 10_000;
    assert Pow10(8) == 1_0000_0000;
    assert Pow10(12) == 1_000_000_000_000;
  }

  lemma StringParts(w: string, c: string, device: string)
    ensures w + "-" + c + "-" + device == w + ("-" + (c + ("-" + device)))
    ensures w + "-" + c + "-" + device == w + ['-'] + (c + ['-'] + device)
  {
  }

  /** The string order of two ids is the causal order of their stamps. */
  lemma StringOrderIsHlcOrder(a: HLC, b: HLC)
    requires InRange(a) && InRange(b)
    ensures StringLess(HlcToString(a), HlcToString(b)) <==> HlcCompare(a, b) < 0
  {
    RangeIsPow10();
    PaddedIsFixed(a.wallTime, 15);
    PaddedIsFixed(b.wallTime, 15);
    PaddedIsFixed(a.counter, 8);
    PaddedIsFixed(b.counter, 8);
    FixedOrder(a.wallTime, b.wallTime, 15);
    FixedOrder(a.counter, b.counter, 8);
    var wa, wb := Fixed(a.wallTime, 15), Fixed(b.wallTime, 15);
    var ca, cb := Fixed(a.counter, 8), Fixed(b.counter, 8);
    var da, db := "-" + a.deviceId, "-" + b.deviceId;
    var ra, rb := "-" + (ca + da), "-" + (cb + db);
    StringParts(wa, ca, a.deviceId);
    StringParts(wb, cb, b.deviceId);
    LessAppend(wa, wb, ra, rb);
    LessAppend("-", "-", ca + da, cb + db);
    LessAppend(ca, cb, da, db);
    LessAppend("-", "-", a.deviceId, b.deviceId);
  }

  lemma {:induction false} DigitsAppend(s: string, d: nat, acc: nat)
    requires d < 10 && forall c :: c in s ==> IsDigit(c)
    ensures DigitsFrom(s + [Digit(d)], acc) == 10 * DigitsFrom(s, acc) + d
  {
    if s == "" {
      assert s + [Digit(d)] == [Digit(d)];
      assert [Digit(d)][1..] == "";
    } else {
      assert IsDigit(s[0]);
      DigitsAppend(s[1..], d, 10 * acc + (s[0] as int - '0' as int));
      assert (s + [Digit(d)])[1..] == s[1..] + [Digit(d)];
    }
  }

  lemma {:induction false} DigitsOfDecimal(n: nat)
    ensures DigitsFrom(Decimal(n), 0) == n
  {
    if n < 10 {
      DigitsAppend("", n, 0);
      assert "" + [Digit(n)] == [Digit(n)];
    } else {
      DigitsOfDecimal(n / 10);
      DigitsAppend(Decimal(n / 10), n % 10, 0);
    }
  }

  lemma {:induction false} DigitsOfPadded(s: string, width: nat)
    ensures DigitsFrom(PadStart(s, width), 0) == DigitsFrom(s, 0)
    decreases width - |s|
  {
    if |s| < width {
      DigitsOfPadded("0" + s, width);
      assert ("0" + s)[1..] == s;
    }
  }

  lemma ParsePadded(n: nat, width: nat)
    ensures ParseInt(PadStart(Decimal(n), width)) == Some(n)
  {
    DigitsOfDecimal(n);
    DigitsOfPadded(Decimal(n), width);
    PadNonEmpty(Decimal(n), width);
    var p := PadStart(Decimal(n), width);
    assert p[0] in p;
  }

  lemma {:induction false} PadNonEmpty(s: string, width: nat)
    requires s != ""
    ensures PadStart(s, width) != ""
    decreases width - |s|
  {
    if |s| < width {
      PadNonEmpty("0" + s, width);
    }
  }

  /** Parsing inverts printing, for every stamp and any device id, hyphens included. */
  lemma FromStringInvertsToString(h: HLC)
    ensures HlcFromString(HlcToString(h)) == Some(h)
  {
    var w, c := PadStart(Decimal(h.wallTime), 15), PadStart(Decimal(h.counter), 8);
    ParsePadded(h.wallTime, 15);
    ParsePadded(h.counter, 8);
    var rest := c + ['-'] + h.deviceId;
    StringParts(w, c, h.deviceId);
    SplitInThree(w, c, h.deviceId);
    Text.JoinSplit(h.deviceId, '-');
  }

  lemma SplitInThree(w: string, c: string, device: string)
    requires '-' !in w && '-' !in c
    ensures var parts := Text.Split(w + ['-'] + (c + ['-'] + device), '-');
      |parts| >= 3 && parts[0] == w && parts[1] == c && parts[2..] == Text.Split(device, '-')
  {
    Text.SplitPrefix(w, c + ['-'] + device, '-');
    Text.SplitPrefix(c, device, '-');
  }

  /** Distinct stamps have distinct ids. */
  lemma ToStringInjective(a: HLC, b: HLC)
    requires HlcToString(a) == HlcToString(b)
    ensures a == b
  {
    FromStringInvertsToString(a);
    FromStringInvertsToString(b);
  }

  // ------------------------------------------------------------------- clock

  function NowStep(current: HLC, wall: nat): HLC {
    if wall > current.wallTime then HLC(wall, 0, current.deviceId)
    else HLC(current.wallTime, current.counter + 1, current.deviceId)
  }

  function MergeStep(current: HLC, remote: HLC, wall: nat): HLC {
    var maxWall := Max(wall, Max(current.wallTime, remote.wallTime));
    var counter :=
      if maxWall == current.wallTime && maxWall == remote.wallTime then Max(current.counter, remote.counter) + 1
      else if maxWall == current.wallTime then current.counter + 1
      else if maxWall == remote.wallTime then remote.counter + 1
      else 0;
    HLC(maxWall, counter, current.deviceId)
  }

  /** `a` comes before `b` by wall time and counter, whatever the devices. */
  predicate Before(a: HLC, b: HLC) {
    a.wallTime < b.wallTime || (a.wallTime == b.wallTime && a.counter < b.counter)
  }

  /** The clock takes no more than it must: no stamp at or after the wall clock that exceeds what was seen is earlier. */
  lemma StampsAreLeast(current: HLC, remote: HLC, wall: nat, other: HLC)
    requires Before(current, other) && wall <= other.wallTime
    ensures !Before(other, NowStep(current, wall))
    ensures Before(remote, other) ==> !Before(other, MergeStep(current, remote, wall))
  {
  }

  class HybridLogicalClock {
    var current: HLC

    constructor (deviceId: string, initial: Option<HLC>)
      ensures current == if initial.Some? then initial.value else HLC(0, 0, deviceId)
    {
      current := if initial.Some? then initial.value else HLC(0, 0, deviceId);
    }

    method Now(wall: nat) returns (stamp: HLC)
      modifies this
      ensures stamp == current == NowStep(old(current), wall)
      ensures HlcCompare(old(current), stamp) < 0
      ensures stamp.wallTime == Max(wall, old(current).wallTime) && stamp.deviceId == old(current).deviceId
    {
      if wall > current.wallTime {
        current := HLC(wall, 0, current.deviceId);
      } else {
        current := HLC(current.wallTime, current.counter + 1, current.deviceId);
      }
      stamp := current;
    }

    method Merge(remote: HLC, wall: nat) returns (stamp: HLC)
      modifies this
      ensures stamp == current == MergeStep(old(current), remote, wall)
      ensures HlcCompare(old(current), stamp) < 0 && HlcCompare(remote, stamp) < 0
      ensures stamp.wallTime == Max(wall, Max(old(current).wallTime, remote.wallTime))
      ensures stamp.deviceId == old(current).deviceId
    {
      var maxWall := Max(wall, Max(current.wallTime, remote.wallTime));
      var counter;
      if maxWall == current.wallTime && maxWall == remote.wallTime {
        counter := Max(current.counter, remote.counter) + 1;
      } else if maxWall == current.wallTime {
        counter := current.counter + 1;
      } else if maxWall == remote.wallTime {
        counter := remote.counter + 1;
      } else {
        counter := 0;
      }
      current := HLC(maxWall, counter, current.deviceId);
      stamp := current;
    }

    method SetCurrent(hlc: HLC)
      modifies this
      ensures current == HLC(hlc.wallTime, hlc.counter, old(current).deviceId)
    {
      current := HLC(hlc.wallTime, hlc.counter, current.deviceId);
    }

    /** The fast-forward a round ends with: `setCurrent(hlcMax(local, remote))`. */
    method FastForward(remote: HLC)
      modifies this
      ensures current == ForwardStep(old(current), remote)
    {
      SetCurrent(HlcMax(current, remote));
    }
  }

  function ForwardStep(current: HLC, remote: HLC): HLC {
    var m := HlcMax(current, remote);
    HLC(m.wallTime, m.counter, current.deviceId)
  }

  // -------------------------------------------------------------- whole runs

  datatype Event =
    | Local(wall: nat)
    | Receive(remote: HLC, wall: nat)
    | Forward(remote: HLC)

  function Step(current: HLC, event: Event): HLC {
    match event
    case Local(wall) => NowStep(current, wall)
    case Receive(remote, wall) => MergeStep(current, remote, wall)
    case Forward(remote) => ForwardStep(current, remote)
  }

  /** The stamps handed out by a run, in order; a fast-forward hands out none. */
  function Stamps(current: HLC, events: seq<Event>): seq<HLC>
    decreases |events|
  {
    if events == [] then []
    else
      var next := Step(current, events[0]);
      (if events[0].Forward? then [] else [next]) + Stamps(next, events[1..])
  }

  /** A fast-forward never moves the clock back, and the next stamp beats the remote it saw. */
  lemma ForwardNeverRegresses(current: HLC, remote: HLC, wall: nat)
    ensures HlcCompare(current, ForwardStep(current, remote)) <= 0
    ensures HlcCompare(remote, NowStep(ForwardStep(current, remote), wall)) < 0
  {
    CompareIsTotalOrder(current, remote, current);
  }

  lemma {:induction false} StampsExceed(floor: HLC, current: HLC, events: seq<Event>)
    requires HlcCompare(floor, current) <= 0
    ensures forall i :: 0 <= i < |Stamps(current, events)| ==> HlcCompare(floor, Stamps(current, events)[i]) < 0
    decreases |events|
  {
    if events != [] {
      var next := Step(current, events[0]);
      if events[0].Forward? {
        ForwardNeverRegresses(current, events[0].remote, 0);
      }
      CompareIsTotalOrder(floor, current, next);
      StampsExceed(floor, next, events[1..]);
    }
  }

  ghost predicate StrictlyIncreasing(stamps: seq<HLC>) {
    forall i, j :: 0 <= i < j < |stamps| ==> HlcCompare(stamps[i], stamps[j]) < 0
  }

  /**
   * Over every run of local events, received stamps and fast-forwards, whatever the wall
   * clock does, the stamps handed out strictly increase and carry this device's id.
   */
  lemma {:induction false} StampsStrictlyIncrease(current: HLC, events: seq<Event>)
    ensures StrictlyIncreasing(Stamps(current, events))
    ensures forall stamp :: stamp in Stamps(current, events) ==> stamp.deviceId == current.deviceId
    decreases |events|
  {
    if events != [] {
      var next := Step(current, events[0]);
      var tail := Stamps(next, events[1..]);
      StampsStrictlyIncrease(next, events[1..]);
      CompareIsTotalOrder(next, next, next);
      StampsExceed(next, next, events[1..]);
      assert next.deviceId == current.deviceId;
      var stamps := if events[0].Forward? then tail else [next] + tail;
      assert Stamps(current, events) == stamps;
      forall i, j | 0 <= i < j < |stamps| ensures HlcCompare(stamps[i], stamps[j]) < 0 {
        if !events[0].Forward? {
          assert stamps[j] == tail[j - 1];
        }
      }
    }
  }
}
