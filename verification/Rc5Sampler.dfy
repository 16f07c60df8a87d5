/** The timer-tick sampler of the infrared receiver, and the Manchester signal it decodes. */
module Rc5Sampler {
  import opened Words
  import opened Bits

  // IR_SAMPLE_COUNT is 800 / 100 = 8 ticks.
  const EDGE_MIN := 12      // IR_SAMPLE_COUNT * 1.5
  const TIMEOUT := 32       // IR_SAMPLE_COUNT * 4

  datatype Ir = Ir(active: bool, last: bool, count: u32, value: u32, valueBits: u32)

  function ShiftIn(value: u32, bit: bool): u32 {
    (2 * value + Bit(bit)) % TWO32
  }

  /** One timer tick that reads `level` from the pin. */
  function Tick(s: Ir, level: bool): Ir {
    if s.active then ActiveTick(s, level)
    else if level == s.last then s
    else ActiveTick(Ir(true, s.last, 0, 0, 0), level)
  }

  function ActiveTick(s: Ir, level: bool): Ir {
    var counted := s.(count := Add32(s.count, 1));
    if s.count > TIMEOUT then counted.(active := false)
    else if s.last == level then counted
    else if counted.count < EDGE_MIN then counted.(last := level)
    else Ir(true, level, 0, ShiftIn(s.value, !level), Add32(s.valueBits, 1))
  }

  class IrSampler {
    var active: bool
    var last: bool
    var count: u32
    var value: u32
    var valueBits: u32

    ghost function View(): Ir
      reads this
    {
      Ir(active, last, count, value, valueBits)
    }

    constructor (level: bool)
      ensures View() == Ir(false, level, 0, 0, 0)
    {
      active, last, count, value, valueBits := false, level, 0, 0, 0;
    }

    /** The timer interrupt. */
    method Sample(level: bool)
      modifies this
      ensures View() == Tick(old(View()), level)
    {
      if !active {
        if level == last {
          return;
        }
        count, value, valueBits := 0, 0, 0;
        active := true;
      }
      var before := count;
      count := Add32(count, 1);
      if before > TIMEOUT {
        active := false;
        return;
      }
      if last == level {
        return;
      }
      last := level;
      if count < EDGE_MIN {
        return;
      }
      value := ShiftIn(value, !level);
      valueBits := Add32(valueBits, 1);
      count := 0;
    }
  }

  /** The sampler together with how often it has woken from its idle state. */
  datatype Traced = Traced(ir: Ir, wakes: nat)

  function Step(s: Traced, level: bool): Traced {
    var next := Tick(s.ir, level);
    Traced(next, s.wakes + if !s.ir.active && next.active then 1 else 0)
  }

  /** The state after a sequence of pin levels, one for each tick. */
  function Run(s: Traced, levels: seq<bool>): Traced {
    if levels == [] then s else Step(Run(s, levels[..|levels| - 1]), levels[|levels| - 1])
  }

  lemma {:induction false} RunConcat(s: Traced, a: seq<bool>, b: seq<bool>)
    ensures Run(s, a + b) == Run(Run(s, a), b)
  {
    if b == [] {
      assert a + b == a;
    } else {
      var front := b[..|b| - 1];
      assert (a + b)[..|a + b| - 1] == a + front;
      RunConcat(s, a, front);
    }
  }

  lemma RunVia(s: Traced, levels: seq<bool>, a: seq<bool>, m: Traced, b: seq<bool>, r: Traced)
    requires levels == a + b && Run(s, a) == m && Run(m, b) == r
    ensures Run(s, levels) == r
  {
    RunConcat(s, a, b);
  }

  // ------------------------------------------------------------------
  // The Manchester signal, in ticks
  // ------------------------------------------------------------------

  /** `gap` ticks after the middle of the previous bit the line moves to the level of this bit's
      first half, and `mid` ticks after it comes this bit's middle edge. */
  datatype Edges = Edges(gap: nat, mid: nat)
  type Timing = t: Edges | 1 <= t.gap < t.mid witness Edges(1, 2)

  function Hold(level: bool, n: nat): (levels: seq<bool>)
    ensures |levels| == n && forall i | 0 <= i < n :: levels[i] == level
  {
    seq(n, _ => level)
  }

  /** One bit: first half at its own value, middle edge to the opposite level. */
  function BitLevels(prev: bool, bit: bool, t: Timing): seq<bool> {
    Hold(!prev, t.gap - 1) + Hold(bit, t.mid - t.gap) + [!bit]
  }

  /** The bit before position `n`; the start bit is a 1. */
  function Prev(bits: seq<bool>, n: nat): bool
    requires n <= |bits|
  {
    n == 0 || bits[n - 1]
  }

  /** Ticks already counted when the bit begins: the activation tick leaves 1, a sampled edge 0. */
  function Lead(n: nat): nat {
    if n == 0 then 1 else 0
  }

  /** The tolerance of one bit: boundary edge early enough, middle edge late enough and in time. */
  predicate InWindow(bits: seq<bool>, n: nat, t: Timing)
    requires n < |bits|
  {
    && (bits[n] == Prev(bits, n) ==> t.gap + Lead(n) < EDGE_MIN)
    && EDGE_MIN <= t.mid + Lead(n) <= TIMEOUT + 1
  }

  function Body(bits: seq<bool>, timings: seq<Timing>): seq<bool>
    requires |timings| == |bits|
  {
    if bits == [] then []
    else
      var n := |bits| - 1;
      Body(bits[..n], timings[..n]) + BitLevels(Prev(bits, n), bits[n], timings[n])
  }

  /** After the last bit the line returns to idle (high) and stays there. */
  function Tail(bits: seq<bool>, gap: nat, idle: nat): seq<bool>
    requires 1 <= gap
  {
    Hold(!Prev(bits, |bits|), gap - 1) + Hold(true, idle)
  }

  datatype Frame = Frame(bits: seq<bool>, timings: seq<Timing>, gap: nat, idle: nat)

  predicate ValidFrame(f: Frame) {
    && |f.timings| == |f.bits|
    && AllInWindow(f.bits, f.timings)
    && 1 <= f.gap
    && (Prev(f.bits, |f.bits|) ==> f.gap + Lead(|f.bits|) < EDGE_MIN)
    && f.gap - 1 + f.idle + Lead(|f.bits|) >= TIMEOUT + 2
  }

  /** The start bit's middle edge wakes the sampler; then the bits; then the idle line. */
  function Levels(f: Frame): seq<bool>
    requires ValidFrame(f)
  {
    [false] + Body(f.bits, f.timings) + Tail(f.bits, f.gap, f.idle)
  }

  // ------------------------------------------------------------------
  // Decoding inverts the signal
  // ------------------------------------------------------------------

  function Counting(s: Traced, n: nat): Traced
    requires s.ir.count + n < TWO32
  {
    s.(ir := s.ir.(count := s.ir.count + n))
  }

  function TimedOut(s: Traced): Traced {
    s.(ir := s.ir.(active := false, count := TIMEOUT + 2))
  }

  lemma {:induction false} HoldActive(s: Traced, level: bool, n: nat)
    requires s.ir.active && s.ir.last == level && s.ir.count + n <= TIMEOUT + 1
    ensures Run(s, Hold(level, n)) == Counting(s, n)
  {
    if n > 0 {
      assert Hold(level, n)[..n - 1] == Hold(level, n - 1);
      HoldActive(s, level, n - 1);
    }
  }

  lemma {:induction false} HoldIdle(s: Traced, level: bool, n: nat)
    requires !s.ir.active && s.ir.last == level
    ensures Run(s, Hold(level, n)) == s
  {
    if n > 0 {
      assert Hold(level, n)[..n - 1] == Hold(level, n - 1);
      HoldIdle(s, level, n - 1);
    }
  }

  lemma OneTick(s: Traced, level: bool)
    ensures Run(s, [level]) == Step(s, level)
  {
    assert [level][..0] == [];
    assert Run(s, []) == s;
  }

  /** A level held past the timeout ends the frame. */
  lemma HoldTimeout(s: Traced, level: bool, n: nat)
    requires s.ir.active && s.ir.last == level && s.ir.count <= TIMEOUT + 1 && s.ir.count + n >= TIMEOUT + 2
    ensures Run(s, Hold(level, n)) == TimedOut(s)
  {
    var k := TIMEOUT + 1 - s.ir.count;
    var rest := Hold(level, n - k - 1);
    HoldActive(s, level, k);
    OneTick(Counting(s, k), level);
    HoldIdle(TimedOut(s), level, n - k - 1);
    RunVia(Counting(s, k), [level] + rest, [level], TimedOut(s), rest, TimedOut(s));
    assert Hold(level, n) == Hold(level, k) + ([level] + rest);
    RunVia(s, Hold(level, n), Hold(level, k), Counting(s, k), [level] + rest, TimedOut(s));
  }

  lemma HoldThen(s: Traced, level: bool, n: nat, next: bool)
    requires s.ir.active && s.ir.last == level && s.ir.count + n <= TIMEOUT + 1
    ensures Run(s, Hold(level, n) + [next]) == Step(Counting(s, n), next)
  {
    HoldActive(s, level, n);
    OneTick(Counting(s, n), next);
    RunVia(s, Hold(level, n) + [next], Hold(level, n), Counting(s, n), [next], Step(Counting(s, n), next));
  }

  /** The part of a bit up to its boundary edge. */
  function First(prev: bool, bit: bool, t: Timing): seq<bool> {
    if bit == prev then Hold(!prev, t.gap - 1) + [bit] else []
  }

  /** How long the line then stays at the bit's own level before the middle edge. */
  function Wait(prev: bool, bit: bool, t: Timing): nat {
    if bit == prev then t.mid - t.gap - 1 else t.mid - 1
  }

  function Second(prev: bool, bit: bool, t: Timing): seq<bool> {
    Hold(bit, Wait(prev, bit, t)) + [!bit]
  }

  lemma BitSplits(prev: bool, bit: bool, t: Timing)
    ensures BitLevels(prev, bit, t) == First(prev, bit, t) + Second(prev, bit, t)
  {
    var a, b := BitLevels(prev, bit, t), First(prev, bit, t) + Second(prev, bit, t);
    assert |a| == |b|;
    forall i | 0 <= i < |a|
      ensures a[i] == b[i]
    {
    }
  }

  /** The boundary edge comes too early to be sampled, and is only remembered. */
  function AfterFirst(s: Traced, prev: bool, bit: bool, t: Timing): Traced
    requires s.ir.count + t.gap < TWO32
  {
    s.(ir := s.ir.(count := s.ir.count + (if bit == prev then t.gap else 0), last := bit))
  }

  lemma FirstRuns(s: Traced, prev: bool, bit: bool, t: Timing)
    requires s.ir.active && s.ir.last == !prev && s.ir.count + t.gap < TWO32
    requires bit == prev ==> s.ir.count + t.gap < EDGE_MIN
    ensures Run(s, First(prev, bit, t)) == AfterFirst(s, prev, bit, t)
  {
    if bit == prev {
      HoldThen(s, !prev, t.gap - 1, bit);
    }
  }

  function Sampled(s: Traced, bit: bool): Traced {
    s.(ir := Ir(true, !bit, 0, ShiftIn(s.ir.value, bit), Add32(s.ir.valueBits, 1)))
  }

  lemma BitDecodes(s: Traced, prev: bool, bit: bool, t: Timing)
    requires s.ir.active && s.ir.last == !prev
    requires bit == prev ==> s.ir.count + t.gap < EDGE_MIN
    requires EDGE_MIN <= s.ir.count + t.mid <= TIMEOUT + 1
    ensures Run(s, BitLevels(prev, bit, t)) == Sampled(s, bit)
  {
    BitSplits(prev, bit, t);
    FirstRuns(s, prev, bit, t);
    var m := AfterFirst(s, prev, bit, t);
    HoldThen(m, bit, Wait(prev, bit, t), !bit);
    RunVia(s, BitLevels(prev, bit, t), First(prev, bit, t), m, Second(prev, bit, t), Sampled(s, bit));
  }

  lemma ShiftValue(bits: seq<bool>, n: nat)
    requires n < |bits|
    ensures ShiftIn(Value(bits[..n]) % TWO32, bits[n]) == Value(bits[..n + 1]) % TWO32
    ensures Add32(n % TWO32, 1) == (n + 1) % TWO32
  {
    assert bits[..n + 1][..n] == bits[..n];
    var v, b := Value(bits[..n]), Bit(bits[n]);
    assert v == TWO32 * (v / TWO32) + v % TWO32;
    assert 2 * v + b == TWO32 * (2 * (v / TWO32)) + (2 * (v % TWO32) + b);
    ModShift(2 * (v % TWO32) + b, 2 * (v / TWO32));
  }

  lemma ModShift(x: int, k: int)
    ensures (TWO32 * k + x) % TWO32 == x % TWO32
  {
  }

  /** The sampler after the body of a frame. */
  function AfterBody(wakes: nat, bits: seq<bool>): Traced {
    Traced(Ir(true, !Prev(bits, |bits|), Lead(|bits|), Value(bits) % TWO32, |bits| % TWO32), wakes)
  }

  lemma BodyStep(wakes: nat, bits: seq<bool>, t: Timing)
    requires bits != [] && InWindow(bits, |bits| - 1, t)
    ensures var n := |bits| - 1;
            Run(AfterBody(wakes, bits[..n]), BitLevels(Prev(bits, n), bits[n], t)) == AfterBody(wakes, bits)
  {
    var n := |bits| - 1;
    BitDecodes(AfterBody(wakes, bits[..n]), Prev(bits, n), bits[n], t);
    ShiftValue(bits, n);
    assert bits[..n + 1] == bits;
  }

  predicate AllInWindow(bits: seq<bool>, timings: seq<Timing>)
    requires |timings| == |bits|
  {
    forall i | 0 <= i < |bits| :: InWindow(bits, i, timings[i])
  }

  lemma {:induction false} BodyDecodes(wakes: nat, bits: seq<bool>, timings: seq<Timing>)
    requires |timings| == |bits| && AllInWindow(bits, timings)
    ensures Run(AfterBody(wakes, []), Body(bits, timings)) == AfterBody(wakes, bits)
  {
    if bits != [] {
      var n := |bits| - 1;
      forall i | 0 <= i < n
        ensures InWindow(bits[..n], i, timings[..n][i])
      {
        assert InWindow(bits, i, timings[i]);
      }
      BodyDecodes(wakes, bits[..n], timings[..n]);
      BodyStep(wakes, bits, timings[n]);
      RunVia(AfterBody(wakes, []), Body(bits, timings), Body(bits[..n], timings[..n]),
             AfterBody(wakes, bits[..n]), BitLevels(Prev(bits, n), bits[n], timings[n]), AfterBody(wakes, bits));
    }
  }

  /** The line comes back up after a last low half, and then stays idle. */
  lemma RiseEnds(s: Traced, gap: nat, idle: nat)
    requires s.ir.active && !s.ir.last && 1 <= gap && gap + s.ir.count < EDGE_MIN && 1 <= idle
    requires gap - 1 + idle + s.ir.count >= TIMEOUT + 2
    ensures Run(s, (Hold(false, gap - 1) + [true]) + Hold(true, idle - 1)) == TimedOut(s.(ir := s.ir.(last := true)))
  {
    HoldThen(s, false, gap - 1, true);
    var m := s.(ir := s.ir.(count := s.ir.count + gap, last := true));
    HoldTimeout(m, true, idle - 1);
    var first, rest := Hold(false, gap - 1) + [true], Hold(true, idle - 1);
    RunVia(s, first + rest, first, m, rest, TimedOut(m));
  }

  lemma TailEnds(s: Traced, bits: seq<bool>, gap: nat, idle: nat)
    requires s.ir.active && s.ir.last == !Prev(bits, |bits|) && s.ir.count == Lead(|bits|)
    requires 1 <= gap && (Prev(bits, |bits|) ==> gap + s.ir.count < EDGE_MIN)
    requires gap - 1 + idle + s.ir.count >= TIMEOUT + 2
    ensures Run(s, Tail(bits, gap, idle)) == TimedOut(s.(ir := s.ir.(last := true)))
  {
    if s.ir.last {
      assert Tail(bits, gap, idle) == Hold(true, gap - 1 + idle);
      HoldTimeout(s, true, gap - 1 + idle);
    } else {
      assert Tail(bits, gap, idle) == (Hold(false, gap - 1) + [true]) + Hold(true, idle - 1);
      RiseEnds(s, gap, idle);
    }
  }

  /** The sampler once a frame has been received completely. */
  function Received(bits: seq<bool>): Ir {
    Ir(false, true, TIMEOUT + 2, Value(bits) % TWO32, |bits| % TWO32)
  }

  /** From idle, any valid frame of any length decodes to its own bits, and leaves the sampler idle. */
  lemma FrameDecodes(s: Traced, f: Frame)
    requires !s.ir.active && s.ir.last && ValidFrame(f)
    ensures Run(s, Levels(f)) == Traced(Received(f.bits), s.wakes + 1)
  {
    var wakes := s.wakes + 1;
    var body, tail := Body(f.bits, f.timings), Tail(f.bits, f.gap, f.idle);
    OneTick(s, false);
    assert Step(s, false) == AfterBody(wakes, []);
    BodyDecodes(wakes, f.bits, f.timings);
    RunVia(s, [false] + body, [false], AfterBody(wakes, []), body, AfterBody(wakes, f.bits));
    TailEnds(AfterBody(wakes, f.bits), f.bits, f.gap, f.idle);
    RunVia(s, Levels(f), [false] + body, AfterBody(wakes, f.bits), tail, Traced(Received(f.bits), wakes));
  }

  /** The window is exact: inside a frame a bit is taken iff its middle edge falls in it. */
  lemma BitWindowExact(s: Traced, prev: bool, bit: bool, t: Timing)
    requires s.ir.active && s.ir.last == !prev && s.ir.count == 0
    requires bit == prev ==> t.gap < EDGE_MIN
    ensures Run(s, BitLevels(prev, bit, t)) == Sampled(s, bit) <==> 12 <= t.mid <= 33
  {
    if EDGE_MIN <= t.mid <= TIMEOUT + 1 {
      BitDecodes(s, prev, bit, t);
    } else if bit == prev {
      BitSplits(prev, bit, t);
      FirstRuns(s, prev, bit, t);
      LateEdge(AfterFirst(s, prev, bit, t), bit, Wait(prev, bit, t));
      RunConcat(s, First(prev, bit, t), Second(prev, bit, t));
    } else {
      assert BitLevels(prev, bit, t) == Second(prev, bit, t);
      LateEdge(s, bit, Wait(prev, bit, t));
    }
  }

  /** An edge outside the window is not sampled: it is ignored, or comes after the timeout. */
  lemma LateEdge(s: Traced, level: bool, n: nat)
    requires s.ir.active && s.ir.last == level && s.ir.count < EDGE_MIN
    requires s.ir.count + n + 1 < EDGE_MIN || s.ir.count + n + 1 > TIMEOUT + 1
    ensures Run(s, Hold(level, n) + [!level]).ir.count > 0
  {
    if s.ir.count + n <= TIMEOUT + 1 {
      HoldThen(s, level, n, !level);
    } else {
      HoldTimeout(s, level, n);
      OneTick(TimedOut(s), !level);
      RunConcat(s, Hold(level, n), [!level]);
    }
  }
}
