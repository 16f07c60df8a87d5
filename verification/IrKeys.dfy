/** The main loop's infrared part: polling the sampler, decoding frames, reporting keys. */
module IrKeys {
  import opened Words
  import opened Bits
  import opened Rc5Sampler

  const FRAME_BITS := 13

  datatype Rc5 = Rc5(control: nat, address: nat, command: nat)

  const NO_KEY := Rc5(0, 0, 0)

  function Decode(val: u32): Rc5 {
    var command := val % 64;
    var address := (val / 64) % 32;
    var control := (val / 2048) % 2;
    var field := (val / 4096) % 2;
    Rc5(control, address, if field == 0 then command + 64 else command)
  }

  // ------------------------------------------------------------------
  // The frame layout: field bit, control bit, 5 address bits, 6 command bits
  // ------------------------------------------------------------------

  predicate ValidMessage(m: Rc5) {
    m.control < 2 && m.address < 32 && m.command < 128
  }

  /** The 13 bits after the start bit. The field bit is the inverse of the command's seventh bit. */
  function FrameBits(m: Rc5): (bits: seq<bool>)
    ensures |bits| == FRAME_BITS
  {
    [m.command < 64, m.control == 1] + Low(m.address, 5) + Low(m.command % 64, 6)
  }

  lemma LowFits(v: nat, n: nat, bound: nat)
    requires v < bound && bound == Pow2(n)
    ensures Value(Low(v, n)) == v
  {
    ValueLow(v, n);
  }

  lemma Pow2Small()
    ensures Pow2(5) == 32 && Pow2(6) == 64
  {
    assert Pow2(2) == 4 && Pow2(4) == 16;
  }

  lemma ValueOfTwo(a: bool, b: bool)
    ensures Value([a, b]) == 2 * Bit(a) + Bit(b)
  {
    var two, one := [a, b], [a];
    assert two[..|two| - 1] == one && one[..|one| - 1] == [];
    assert Value(one) == Bit(a);
  }

  lemma FrameValue(m: Rc5)
    requires ValidMessage(m)
    ensures Value(FrameBits(m)) ==
            4096 * Bit(m.command < 64) + 2048 * m.control + 64 * m.address + m.command % 64
  {
    var head, address, command := [m.command < 64, m.control == 1], Low(m.address, 5), Low(m.command % 64, 6);
    Pow2Small();
    LowFits(m.address, 5, 32);
    LowFits(m.command % 64, 6, 64);
    ValueOfTwo(m.command < 64, m.control == 1);
    ValueConcat(head, address);
    ValueConcat(head + address, command);
  }

  lemma FieldsOf(field: nat, control: nat, address: nat, command: nat)
    requires field < 2 && control < 2 && address < 32 && command < 64
    ensures var v := 4096 * field + 2048 * control + 64 * address + command;
            v % 64 == command && (v / 64) % 32 == address && (v / 2048) % 2 == control && (v / 4096) % 2 == field
  {
    var v := 4096 * field + 2048 * control + 64 * address + command;
    assert v / 64 == 64 * field + 32 * control + address;
    assert v / 2048 == 2 * field + control;
    assert v / 4096 == field;
  }

  /** Decoding a transmitted message gives the message back. */
  lemma DecodeInvertsLayout(m: Rc5)
    requires ValidMessage(m)
    ensures Decode(Value(FrameBits(m)) % TWO32) == m
  {
    FrameValue(m);
    BitsDecode(FrameBits(m), m);
  }

  lemma BitsDecode(bits: seq<bool>, m: Rc5)
    requires ValidMessage(m)
    requires Value(bits) == 4096 * Bit(m.command < 64) + 2048 * m.control + 64 * m.address + m.command % 64
    ensures Decode(Value(bits) % TWO32) == m
  {
    DecodeFields(Bit(m.command < 64), m.control, m.address, m.command % 64);
    SmallModulo(Value(bits), TWO32);
  }

  lemma DecodeFields(field: nat, control: nat, address: nat, command: nat)
    requires field < 2 && control < 2 && address < 32 && command < 64
    ensures var v := 4096 * field + 2048 * control + 64 * address + command;
            v < TWO32 && Decode(v) == Rc5(control, address, if field == 0 then command + 64 else command)
  {
    FieldsOf(field, control, address, command);
  }

  /** From pin levels to message: any valid timing of a message's frame is decoded to the message. */
  lemma TransmissionDecodes(s: Traced, m: Rc5, f: Frame)
    requires ValidMessage(m) && f.bits == FrameBits(m) && ValidFrame(f)
    requires !s.ir.active && s.ir.last
    ensures var r := Run(s, Levels(f)).ir;
            !r.active && r.last && r.valueBits == FRAME_BITS && Decode(r.value) == m
  {
    FrameDecodes(s, f);
    DecodeInvertsLayout(m);
  }

  // ------------------------------------------------------------------
  // Interrupt ticks interleaved with polls of the main loop
  // ------------------------------------------------------------------

  datatype Event = Sampled(level: bool) | Polled

  /** What a poll sees: a complete frame, if the sampler is idle and holds 13 bits. */
  function Seen(ir: Ir): Option<u32> {
    if !ir.active && ir.valueBits == FRAME_BITS then Some(ir.value) else None
  }

  function AfterPoll(ir: Ir): Ir {
    if ir.active then ir else ir.(valueBits := 0)
  }

  /** The sampler and the frames the polls have seen so far. */
  datatype Polling = Polling(ir: Ir, frames: seq<u32>)

  function Handle(p: Polling, e: Event): Polling {
    match e
    case Sampled(level) => p.(ir := Tick(p.ir, level))
    case Polled =>
      var frames := if Seen(p.ir).Some? then p.frames + [Seen(p.ir).value] else p.frames;
      Polling(AfterPoll(p.ir), frames)
  }

  function HandleAll(p: Polling, events: seq<Event>): Polling {
    if events == [] then p else Handle(HandleAll(p, events[..|events| - 1]), events[|events| - 1])
  }

  /** The pin levels of the ticks among the events. */
  function TicksOf(events: seq<Event>): seq<bool> {
    if events == [] then []
    else
      var front := TicksOf(events[..|events| - 1]);
      match events[|events| - 1]
      case Sampled(level) => front + [level]
      case Polled => front
  }

  /** As long as the sampler has woken at most once, polls only take the finished frame, once. */
  ghost predicate Tracks(p: Polling, pure: Traced, frames: seq<u32>) {
    && p.ir.(valueBits := pure.ir.valueBits) == pure.ir
    && (pure.ir.active || pure.wakes == 0 ==> p.ir == pure.ir && p.frames == frames)
    && (pure.wakes == 0 ==> !pure.ir.active && pure.ir.valueBits == 0)
    && (!pure.ir.active ==>
          || (p.ir == pure.ir && p.frames == frames)
          || (p.ir.valueBits == 0 &&
              p.frames == if Seen(pure.ir).Some? then frames + [Seen(pure.ir).value] else frames))
  }

  lemma RunSnoc(s: Traced, levels: seq<bool>, level: bool)
    ensures Run(s, levels + [level]) == Step(Run(s, levels), level)
  {
    assert (levels + [level])[..|levels|] == levels;
  }

  lemma {:induction false} PollsTrack(s: Ir, frames: seq<u32>, events: seq<Event>)
    requires !s.active && s.valueBits == 0
    requires Run(Traced(s, 0), TicksOf(events)).wakes <= 1
    ensures Tracks(HandleAll(Polling(s, frames), events), Run(Traced(s, 0), TicksOf(events)), frames)
  {
    if events != [] {
      var k := |events| - 1;
      var front := events[..k];
      if events[k].Sampled? {
        RunSnoc(Traced(s, 0), TicksOf(front), events[k].level);
      }
      PollsTrack(s, frames, front);
      TrackStep(HandleAll(Polling(s, frames), front), Run(Traced(s, 0), TicksOf(front)), frames, events[k]);
    }
  }

  lemma TrackStep(p: Polling, pure: Traced, frames: seq<u32>, e: Event)
    requires Tracks(p, pure, frames)
    requires e.Sampled? ==> Step(pure, e.level).wakes <= 1
    ensures Tracks(Handle(p, e), if e.Sampled? then Step(pure, e.level) else pure, frames)
  {
  }

  predicate Consumed(ir: Ir) {
    !ir.active && ir.last && ir.valueBits == 0
  }

  /** However polls fall between the ticks of a frame, one more poll has seen it exactly once. */
  lemma FrameSeenOnce(p: Polling, f: Frame, events: seq<Event>)
    requires Consumed(p.ir) && ValidFrame(f) && |f.bits| == FRAME_BITS
    requires TicksOf(events) == Levels(f)
    ensures var r := HandleAll(p, events + [Polled]);
            Consumed(r.ir) && r.frames == p.frames + [Value(f.bits) % TWO32]
  {
    FrameDecodes(Traced(p.ir, 0), f);
    PollsTrack(p.ir, p.frames, events);
    assert (events + [Polled])[..|events|] == events;
  }

  lemma {:induction false} HandleConcat(p: Polling, a: seq<Event>, b: seq<Event>)
    ensures HandleAll(p, a + b) == HandleAll(HandleAll(p, a), b)
  {
    if b == [] {
      assert a + b == a;
    } else {
      assert (a + b)[..|a + b| - 1] == a + b[..|b| - 1];
      HandleConcat(p, a, b[..|b| - 1]);
    }
  }

  /** One transmission: a message, a valid frame for it, and ticks of that frame mixed with polls. */
  datatype Sent = Sent(message: Rc5, frame: Frame, events: seq<Event>)

  predicate ValidSent(t: Sent) {
    && ValidMessage(t.message) && ValidFrame(t.frame)
    && t.frame.bits == FrameBits(t.message)
    && TicksOf(t.events) == Levels(t.frame)
  }

  function Stream(sent: seq<Sent>): seq<Event> {
    if sent == [] then []
    else Stream(sent[..|sent| - 1]) + (sent[|sent| - 1].events + [Polled])
  }

  lemma SentSeenOnce(p: Polling, t: Sent) returns (v: u32)
    requires Consumed(p.ir) && ValidSent(t)
    ensures var r := HandleAll(p, t.events + [Polled]);
            Consumed(r.ir) && r.frames == p.frames + [v] && Decode(v) == t.message
  {
    v := Value(FrameBits(t.message)) % TWO32;
    FrameSeenOnce(p, t.frame, t.events);
    DecodeInvertsLayout(t.message);
  }

  /** The frames seen are those of the messages, in order. */
  predicate Delivers(frames: seq<u32>, sent: seq<Sent>) {
    |frames| == |sent| && forall i | 0 <= i < |sent| :: Decode(frames[i]) == sent[i].message
  }

  lemma SessionStep(p: Polling, q: Polling, front: seq<Sent>, t: Sent)
    requires q == HandleAll(p, Stream(front)) && Consumed(q.ir) && Delivers(q.frames, front) && ValidSent(t)
    ensures var r := HandleAll(p, Stream(front) + (t.events + [Polled]));
            Consumed(r.ir) && Delivers(r.frames, front + [t])
  {
    HandleConcat(p, Stream(front), t.events + [Polled]);
    var v := SentSeenOnce(q, t);
  }

  /** A whole session: every message sent is seen once, in order, whatever the interleaving. */
  lemma {:induction false} SessionDecodes(ir: Ir, sent: seq<Sent>)
    requires Consumed(ir) && forall t | t in sent :: ValidSent(t)
    ensures var r := HandleAll(Polling(ir, []), Stream(sent));
            Consumed(r.ir) && Delivers(r.frames, sent)
  {
    if sent != [] {
      var k := |sent| - 1;
      var front := sent[..k];
      assert sent == front + [sent[k]];
      SessionDecodes(ir, front);
      SessionStep(Polling(ir, []), HandleAll(Polling(ir, []), Stream(front)), front, sent[k]);
    }
  }
}
