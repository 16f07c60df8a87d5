/** The sample clock and frame buffer of the A2DP source: samples due, encoded, stored and sent. */
module SampleClock {
  import opened Words

  const AUDIO_TIMEOUT_MS: u32 := 10

  /** Stream parameters: the encoder takes `frameSamples` samples and gives `frameBytes` bytes. */
  datatype Params = Params(rate: nat, maxPayload: nat, frameBytes: nat, frameSamples: nat)

  predicate ValidParams(p: Params) {
    p.frameBytes > 0 && p.frameSamples > 0
  }

  datatype Media = Media(timeSent: u32, acc: u32, ready: u32, stored: nat, readyToSend: bool)

  // ------------------------------------------------------------------
  // Specification of the handlers
  // ------------------------------------------------------------------

  function Period(m: Media, now: u32): u32 {
    if m.timeSent > 0 then Sub32(now, m.timeSent) else AUDIO_TIMEOUT_MS
  }

  /** period * rate in 32 bits. */
  function Product(m: Media, p: Params, now: u32): u32 {
    (Period(m, now) * p.rate) % TWO32
  }

  /** The carry counter before whole samples are taken out of it. */
  function Carry(m: Media, p: Params, now: u32): u32 {
    Add32(m.acc, Product(m, p, now) % 1000)
  }

  function NewSamples(m: Media, p: Params, now: u32): u32
  {
    Add32(Product(m, p, now) / 1000, Carry(m, p, now) / 1000)
  }

  /** The frames that the samples and the free space allow. */
  function FramesToFill(p: Params, ready: u32, stored: nat): nat
    requires ValidParams(p)
  {
    if stored > p.maxPayload then 0
    else Min(ready / p.frameSamples, (p.maxPayload - stored) / p.frameBytes)
  }

  function Clocked(m: Media, p: Params, now: u32): Media {
    m.(timeSent := now, acc := Carry(m, p, now) % 1000, ready := Add32(m.ready, NewSamples(m, p, now)))
  }

  function Filled(m: Media, p: Params, frames: nat): Media
    requires frames * p.frameSamples <= m.ready
  {
    m.(ready := m.ready - frames * p.frameSamples, stored := m.stored + frames * p.frameBytes)
  }

  lemma FramesFit(p: Params, ready: u32, stored: nat)
    requires ValidParams(p)
    ensures FramesToFill(p, ready, stored) * p.frameSamples <= ready
    ensures stored <= p.maxPayload ==> stored + FramesToFill(p, ready, stored) * p.frameBytes <= p.maxPayload
  {
    var f := FramesToFill(p, ready, stored);
    Quotient(ready, p.frameSamples, f);
    if stored <= p.maxPayload {
      Quotient(p.maxPayload - stored, p.frameBytes, f);
    }
  }

  /** f groups of d fit into x exactly when f is at most x / d. */
  lemma Quotient(x: nat, d: nat, f: nat)
    requires d > 0
    ensures f * d <= x <==> f <= x / d
  {
    var q := x / d;
    assert x == q * d + x % d;
    if f <= q {
      Monotone(f, q, d);
    } else {
      Monotone(q + 1, f, d);
      assert (q + 1) * d == q * d + d;
    }
  }

  lemma Monotone(a: nat, b: nat, d: nat)
    requires a <= b
    ensures a * d <= b * d
  {
  }

  function OnTick(m: Media, p: Params, now: u32): Media
    requires ValidParams(p)
  {
    var c := Clocked(m, p, now);
    if m.readyToSend then c
    else
      FramesFit(p, c.ready, c.stored);
      var f := Filled(c, p, FramesToFill(p, c.ready, c.stored));
      f.(readyToSend := f.stored + p.frameBytes > p.maxPayload)
  }

  function OnSend(m: Media): Media {
    m.(stored := 0, readyToSend := false)
  }

  // ------------------------------------------------------------------
  // The handlers
  // ------------------------------------------------------------------

  class MediaTracker {
    const params: Params
    var timeAudioDataSent: u32
    var accNumMissedSamples: u32
    var samplesReady: u32
    var sbcStorageCount: nat
    var sbcReadyToSend: bool

    ghost function View(): Media
      reads this
    {
      Media(timeAudioDataSent, accNumMissedSamples, samplesReady, sbcStorageCount, sbcReadyToSend)
    }

    constructor (p: Params)
      ensures params == p && View() == Media(0, 0, 0, 0, false)
    {
      params := p;
      timeAudioDataSent, accNumMissedSamples, samplesReady, sbcStorageCount, sbcReadyToSend := 0, 0, 0, 0, false;
    }

    /** Encodes frames while a frame's samples and a frame's space are there. */
    method FillSbcAudioBuffer() returns (totalRead: nat)
      requires ValidParams(params)
      modifies this`samplesReady, this`sbcStorageCount
      ensures var frames := FramesToFill(params, old(samplesReady), old(sbcStorageCount));
              && totalRead == frames * params.frameSamples <= old(samplesReady)
              && View() == Filled(old(View()), params, frames)
    {
      totalRead := 0;
      ghost var frames := 0;
      FramesFit(params, samplesReady, sbcStorageCount);
      while samplesReady >= params.frameSamples && params.maxPayload - sbcStorageCount >= params.frameBytes
        invariant totalRead == frames * params.frameSamples
        invariant samplesReady == old(samplesReady) - frames * params.frameSamples
        invariant sbcStorageCount == old(sbcStorageCount) + frames * params.frameBytes
        invariant frames <= FramesToFill(params, old(samplesReady), old(sbcStorageCount))
        decreases samplesReady
      {
        OneMore(params, old(samplesReady), old(sbcStorageCount), frames);
        totalRead := totalRead + params.frameSamples;
        sbcStorageCount := sbcStorageCount + params.frameBytes;
        samplesReady := samplesReady - params.frameSamples;
        frames := frames + 1;
      }
      NoMore(params, old(samplesReady), old(sbcStorageCount), frames);
    }

    /** Moves whole samples from the carry counter to the samples due. */
    static method TakeWholeSamples(samples: u32, carry: u32) returns (samples': u32, carry': u32)
      ensures samples' == Add32(samples, carry / 1000) && carry' == carry % 1000
    {
      samples', carry' := samples, carry;
      ghost var taken: int := 0;
      while carry' >= 1000
        invariant 0 <= taken && carry' as int == carry as int - 1000 * taken
        invariant taken <= carry && samples' == Add32(samples, taken)
        decreases carry'
      {
        samples' := Add32(samples', 1);
        carry' := carry' - 1000;
        taken := taken + 1;
      }
    }

    /** The periodic timer. */
    method AudioTimeoutHandler(now: u32)
      requires ValidParams(params)
      modifies this
      ensures View() == OnTick(old(View()), params, now)
    {
      var period := AUDIO_TIMEOUT_MS;
      if timeAudioDataSent > 0 {
        period := Sub32(now, timeAudioDataSent);
      }
      var product: u32 := (period * params.rate) % TWO32;
      var numSamples: u32 := product / 1000;
      accNumMissedSamples := Add32(accNumMissedSamples, product % 1000);
      numSamples, accNumMissedSamples := TakeWholeSamples(numSamples, accNumMissedSamples);
      timeAudioDataSent := now;
      samplesReady := Add32(samplesReady, numSamples);
      if sbcReadyToSend {
        return;
      }
      var read := FillSbcAudioBuffer();
      if sbcStorageCount + params.frameBytes > params.maxPayload {
        sbcReadyToSend := true;
      }
    }

    /** Sends what is stored; the packet header holds the number of frames in 8 bits. */
    method SendMediaPacket() returns (numFrames: nat)
      requires ValidParams(params)
      modifies this`sbcStorageCount, this`sbcReadyToSend
      ensures View() == OnSend(old(View()))
      ensures numFrames == (old(sbcStorageCount) / params.frameBytes) % 256
    {
      numFrames := (sbcStorageCount / params.frameBytes) % 256;
      sbcStorageCount := 0;
      sbcReadyToSend := false;
    }
  }

  lemma OneMore(p: Params, ready: u32, stored: nat, frames: nat)
    requires ValidParams(p) && frames * p.frameSamples + p.frameSamples <= ready
    requires stored + frames * p.frameBytes + p.frameBytes <= p.maxPayload
    ensures frames + 1 <= FramesToFill(p, ready, stored)
    ensures (frames + 1) * p.frameSamples == frames * p.frameSamples + p.frameSamples
    ensures (frames + 1) * p.frameBytes == frames * p.frameBytes + p.frameBytes
  {
    Quotient(ready, p.frameSamples, frames + 1);
    Quotient(p.maxPayload - stored, p.frameBytes, frames + 1);
  }

  lemma NoMore(p: Params, ready: u32, stored: nat, frames: nat)
    requires ValidParams(p) && frames <= FramesToFill(p, ready, stored)
    requires frames * p.frameSamples + p.frameSamples > ready
             || stored + frames * p.frameBytes + p.frameBytes > p.maxPayload
    ensures frames == FramesToFill(p, ready, stored)
  {
    if stored <= p.maxPayload {
      assert (frames + 1) * p.frameSamples == frames * p.frameSamples + p.frameSamples;
      assert (frames + 1) * p.frameBytes == frames * p.frameBytes + p.frameBytes;
      Quotient(ready, p.frameSamples, frames + 1);
      Quotient(p.maxPayload - stored, p.frameBytes, frames + 1);
    }
  }

  // ------------------------------------------------------------------
  // The books balance over every stretch of streaming
  // ------------------------------------------------------------------

  datatype Event = Timer(now: u32) | CanSend

  /** The tracker with running totals: milliseconds counted, samples generated, frames encoded, frames sent. */
  datatype Ledger = Ledger(m: Media, ms: nat, generated: nat, encoded: nat, sent: nat)

  function Enter(l: Ledger, p: Params, e: Event): Ledger
    requires ValidParams(p)
  {
    match e
    case Timer(now) =>
      var c := Clocked(l.m, p, now);
      var frames := if l.m.readyToSend then 0 else FramesToFill(p, c.ready, c.stored);
      Ledger(OnTick(l.m, p, now), l.ms + Period(l.m, now), l.generated + NewSamples(l.m, p, now),
             l.encoded + frames, l.sent)
    case CanSend => l.(m := OnSend(l.m), sent := l.sent + (l.m.stored / p.frameBytes) % 256)
  }

  /** No 32-bit operation of the handler overflows. */
  predicate NoOverflow(m: Media, p: Params, e: Event) {
    e.Timer? ==>
      && Period(m, e.now) * p.rate < TWO32
      && m.acc + 1000 < TWO32
      && m.ready + Product(m, p, e.now) / 1000 + Carry(m, p, e.now) / 1000 < TWO32
  }

  /** Samples generated match the time counted exactly; samples and frames are all accounted for. */
  predicate Balanced(l: Ledger, p: Params)
    requires ValidParams(p)
  {
    && 1000 * l.generated + l.m.acc == l.ms * p.rate
    && l.m.acc < 1000
    && l.generated == l.m.ready + l.encoded * p.frameSamples
    && l.sent <= l.encoded
    && l.m.stored == (l.encoded - l.sent) * p.frameBytes <= p.maxPayload
  }

  lemma SplitThousand(x: nat, acc: nat)
    ensures var carry := acc + x % 1000;
            1000 * (x / 1000 + carry / 1000) + carry % 1000 == acc + x
  {
  }

  lemma ClockBalances(m: Media, p: Params, now: u32)
    requires NoOverflow(m, p, Timer(now)) && m.acc < 1000
    ensures 1000 * NewSamples(m, p, now) + Carry(m, p, now) % 1000 == m.acc + Period(m, now) * p.rate
    ensures Clocked(m, p, now).ready == m.ready + NewSamples(m, p, now)
  {
    var x := Period(m, now) * p.rate;
    SmallModulo(x, TWO32);
    NoCarryOut(m, p, now, x);
    SplitThousand(x, m.acc);
  }

  /** Without overflow the 32-bit operations are exact. */
  lemma NoCarryOut(m: Media, p: Params, now: u32, x: nat)
    requires NoOverflow(m, p, Timer(now)) && m.acc < 1000 && Product(m, p, now) == x
    ensures Carry(m, p, now) == m.acc + x % 1000
    ensures NewSamples(m, p, now) == x / 1000 + (m.acc + x % 1000) / 1000
  {
  }

  /** Encoding moves samples and fills storage by the same number of frames. */
  lemma FillBalances(p: Params, ready: u32, stored: nat, encoded: nat, sent: nat)
    requires ValidParams(p) && sent <= encoded && stored == (encoded - sent) * p.frameBytes <= p.maxPayload
    ensures var frames := FramesToFill(p, ready, stored);
            && frames * p.frameSamples <= ready
            && ready + encoded * p.frameSamples ==
               ready - frames * p.frameSamples + (encoded + frames) * p.frameSamples
            && stored + frames * p.frameBytes == (encoded + frames - sent) * p.frameBytes <= p.maxPayload
  {
    var frames := FramesToFill(p, ready, stored);
    FramesFit(p, ready, stored);
    Distribute(encoded, frames, p.frameSamples);
    Distribute(encoded - sent, frames, p.frameBytes);
  }

  lemma TimerBalances(l: Ledger, p: Params, now: u32)
    requires ValidParams(p) && Balanced(l, p) && NoOverflow(l.m, p, Timer(now))
    ensures Balanced(Enter(l, p, Timer(now)), p)
  {
    ClockBalances(l.m, p, now);
    Distribute(l.ms, Period(l.m, now), p.rate);
    FillBalances(p, Clocked(l.m, p, now).ready, l.m.stored, l.encoded, l.sent);
  }

  /** The packet counts all the frames that are held. */
  lemma HeldFrames(p: Params, held: nat)
    requires ValidParams(p) && held * p.frameBytes <= p.maxPayload && p.maxPayload / p.frameBytes < 256
    ensures (held * p.frameBytes / p.frameBytes) % 256 == held
  {
    var d := p.frameBytes;
    Quotient(p.maxPayload, d, held);
    ExactQuotient(held, d);
    SmallModulo(held, 256);
  }

  lemma ExactQuotient(n: nat, d: nat)
    requires d > 0
    ensures n * d / d == n
  {
    Quotient(n * d, d, n);
    Quotient(n * d, d, n + 1);
    assert (n + 1) * d == n * d + d;
  }

  lemma SendBalances(l: Ledger, p: Params)
    requires ValidParams(p) && Balanced(l, p) && p.maxPayload / p.frameBytes < 256
    ensures Balanced(Enter(l, p, CanSend), p) && Enter(l, p, CanSend).sent == l.encoded
  {
    HeldFrames(p, l.encoded - l.sent);
  }

  function EnterAll(p: Params, events: seq<Event>): Ledger
    requires ValidParams(p)
  {
    if events == [] then Ledger(Media(0, 0, 0, 0, false), 0, 0, 0, 0)
    else Enter(EnterAll(p, events[..|events| - 1]), p, events[|events| - 1])
  }

  predicate NeverOverflows(p: Params, events: seq<Event>)
    requires ValidParams(p)
  {
    events == [] ||
    (NeverOverflows(p, events[..|events| - 1]) &&
     NoOverflow(EnterAll(p, events[..|events| - 1]).m, p, events[|events| - 1]))
  }

  /** The books balance after every run of ticks and sends; the frame count must fit its 8-bit field. */
  lemma {:induction false} RunBalances(p: Params, events: seq<Event>)
    requires ValidParams(p) && NeverOverflows(p, events) && p.maxPayload / p.frameBytes < 256
    ensures Balanced(EnterAll(p, events), p)
  {
    if events != [] {
      var front := events[..|events| - 1];
      RunBalances(p, front);
      match events[|events| - 1]
      case Timer(now) => TimerBalances(EnterAll(p, front), p, now);
      case CanSend => SendBalances(EnterAll(p, front), p);
    }
  }

  // ------------------------------------------------------------------
  // The milliseconds counted are the time that has passed
  // ------------------------------------------------------------------

  /** A timer tick at true time `t` (milliseconds, unbounded), or a send. */
  datatype TrueEvent = TickAt(t: nat) | SendNow

  function OnClock(e: TrueEvent): Event {
    match e
    case TickAt(t) => Timer(t % TWO32)
    case SendNow => CanSend
  }

  /** The events as the 32-bit clock shows them. */
  function OnClocks(es: seq<TrueEvent>): seq<Event> {
    if es == [] then [] else OnClocks(es[..|es| - 1]) + [OnClock(es[|es| - 1])]
  }

  function FirstTick(es: seq<TrueEvent>): Option<nat> {
    if es == [] then None else if es[0].TickAt? then Some(es[0].t) else FirstTick(es[1..])
  }

  function LastTick(es: seq<TrueEvent>): Option<nat> {
    if es == [] then None
    else if es[|es| - 1].TickAt? then Some(es[|es| - 1].t)
    else LastTick(es[..|es| - 1])
  }

  /** A tick comes after the one before it, less than 2^32 ms later. */
  predicate Follows(es: seq<TrueEvent>, e: TrueEvent) {
    e.TickAt? && LastTick(es).Some? ==> LastTick(es).value < e.t < LastTick(es).value + TWO32
  }

  predicate InOrder(es: seq<TrueEvent>) {
    forall n | 0 <= n < |es| :: Follows(es[..n], es[n])
  }

  /** The milliseconds a run should have counted: 10 for the first tick, then the time since. */
  function Elapsed(es: seq<TrueEvent>): int {
    if FirstTick(es).Some? && LastTick(es).Some? then 10 + LastTick(es).value as int - FirstTick(es).value else 0
  }

  predicate KeepsTime(p: Params, es: seq<TrueEvent>)
    requires ValidParams(p)
  {
    EnterAll(p, OnClocks(es)).ms == Elapsed(es)
  }

  /** A clock that reads 0 counts as not started: the next tick is taken to be 10 ms later. */
  predicate PeriodFits(es: seq<TrueEvent>, e: TrueEvent) {
    e.TickAt? && LastTick(es).Some? && LastTick(es).value % TWO32 == 0 ==> e.t == LastTick(es).value + 10
  }

  lemma OnClocksSnoc(es: seq<TrueEvent>, e: TrueEvent)
    ensures OnClocks(es + [e]) == OnClocks(es) + [OnClock(e)]
  {
    assert (es + [e])[..|es|] == es;
  }

  lemma EnterSnoc(p: Params, events: seq<Event>, e: Event)
    requires ValidParams(p)
    ensures EnterAll(p, events + [e]) == Enter(EnterAll(p, events), p, e)
  {
    assert (events + [e])[..|events|] == events;
  }

  lemma {:induction false} FirstTickSnoc(es: seq<TrueEvent>, e: TrueEvent)
    ensures FirstTick(es + [e]) ==
            if FirstTick(es).Some? then FirstTick(es) else if e.TickAt? then Some(e.t) else None
    ensures FirstTick(es).Some? <==> LastTick(es).Some?
  {
    if es == [] {
      assert es + [e] == [e];
    } else {
      assert (es + [e])[1..] == es[1..] + [e];
      FirstTickSnoc(es[1..], e);
      LastTickTail(es);
    }
  }

  lemma {:induction false} LastTickTail(es: seq<TrueEvent>)
    requires es != []
    ensures LastTick(es).Some? <==> es[0].TickAt? || LastTick(es[1..]).Some?
  {
    if |es| > 1 {
      LastTickTail(es[..|es| - 1]);
      assert es[1..][..|es| - 2] == es[..|es| - 1][1..];
    }
  }

  lemma LastTickSnoc(es: seq<TrueEvent>, e: TrueEvent)
    ensures LastTick(es + [e]) == if e.TickAt? then Some(e.t) else LastTick(es)
  {
    assert (es + [e])[..|es|] == es;
  }

  /** The time stamp is what the clock showed at the last tick. */
  lemma {:induction false} StampIsLastTick(p: Params, es: seq<TrueEvent>)
    requires ValidParams(p)
    ensures EnterAll(p, OnClocks(es)).m.timeSent == if LastTick(es).Some? then LastTick(es).value % TWO32 else 0
  {
    if es != [] {
      var front, e := es[..|es| - 1], es[|es| - 1];
      StampIsLastTick(p, front);
      assert es == front + [e];
      OnClocksSnoc(front, e);
      EnterSnoc(p, OnClocks(front), OnClock(e));
      StampStep(EnterAll(p, OnClocks(front)), p, OnClock(e));
    }
  }

  lemma StampStep(l: Ledger, p: Params, e: Event)
    requires ValidParams(p)
    ensures Enter(l, p, e).m.timeSent == if e.Timer? then e.now else l.m.timeSent
    ensures Enter(l, p, e).ms == l.ms + if e.Timer? then Period(l.m, e.now) else 0
  {
  }

  /** The difference of two clock readings less than 2^32 apart. */
  lemma ClockDifference(a: nat, b: nat)
    requires a < b < a + TWO32
    ensures Sub32(b % TWO32, a % TWO32) == b - a
  {
    var q := a / TWO32;
    assert a == TWO32 * q + a % TWO32;
    if b < TWO32 * (q + 1) {
      assert b % TWO32 == b - TWO32 * q;
    } else {
      assert b % TWO32 == b - TWO32 * (q + 1);
    }
  }

  lemma PeriodIs(p: Params, es: seq<TrueEvent>, t: nat)
    requires ValidParams(p) && Follows(es, TickAt(t))
    ensures Period(EnterAll(p, OnClocks(es)).m, t % TWO32) ==
            if LastTick(es).None? || LastTick(es).value % TWO32 == 0 then 10 else t - LastTick(es).value
  {
    StampIsLastTick(p, es);
    if LastTick(es).Some? {
      ClockDifference(LastTick(es).value, t);
    }
  }

  lemma TimeStep(p: Params, es: seq<TrueEvent>, e: TrueEvent)
    requires ValidParams(p) && Follows(es, e) && KeepsTime(p, es)
    ensures KeepsTime(p, es + [e]) <==> PeriodFits(es, e)
  {
    OnClocksSnoc(es, e);
    EnterSnoc(p, OnClocks(es), OnClock(e));
    StampStep(EnterAll(p, OnClocks(es)), p, OnClock(e));
    FirstTickSnoc(es, e);
    LastTickSnoc(es, e);
    if e.TickAt? {
      PeriodIs(p, es, e.t);
    }
  }

  predicate KeepsTimeAt(p: Params, es: seq<TrueEvent>, n: nat)
    requires ValidParams(p) && n <= |es|
  {
    KeepsTime(p, es[..n])
  }

  lemma TimeStepAt(p: Params, es: seq<TrueEvent>, n: nat)
    requires ValidParams(p) && InOrder(es) && n < |es| && KeepsTimeAt(p, es, n)
    ensures KeepsTimeAt(p, es, n + 1) <==> PeriodFits(es[..n], es[n])
  {
    assert es[..n + 1] == es[..n] + [es[n]];
    assert Follows(es[..n], es[n]);
    TimeStep(p, es[..n], es[n]);
  }

  lemma {:induction false} FittingKeepsTime(p: Params, es: seq<TrueEvent>, n: nat)
    requires ValidParams(p) && InOrder(es) && n <= |es|
    requires forall i | 0 <= i < n :: PeriodFits(es[..i], es[i])
    ensures KeepsTimeAt(p, es, n)
  {
    if n > 0 {
      FittingKeepsTime(p, es, n - 1);
      assert PeriodFits(es[..n - 1], es[n - 1]);
      TimeStepAt(p, es, n - 1);
    }
  }

  /** The milliseconds counted are those that passed, all along, iff the clock is never 0 at a tick that a gap
      other than 10 ms follows. */
  lemma KeepsTimeIff(p: Params, es: seq<TrueEvent>)
    requires ValidParams(p) && InOrder(es)
    ensures (forall n | 0 <= n <= |es| :: KeepsTimeAt(p, es, n)) <==>
            (forall n | 0 <= n < |es| :: PeriodFits(es[..n], es[n]))
  {
    if forall n | 0 <= n <= |es| :: KeepsTimeAt(p, es, n) {
      forall n | 0 <= n < |es|
        ensures PeriodFits(es[..n], es[n])
      {
        assert KeepsTimeAt(p, es, n) && KeepsTimeAt(p, es, n + 1);
        TimeStepAt(p, es, n);
      }
    }
    if forall n | 0 <= n < |es| :: PeriodFits(es[..n], es[n]) {
      forall n | 0 <= n <= |es|
        ensures KeepsTimeAt(p, es, n)
      {
        FittingKeepsTime(p, es, n);
      }
    }
  }

  /** No tick reads 0 on the clock. */
  predicate NeverZero(es: seq<TrueEvent>) {
    forall e | e in es && e.TickAt? :: e.t % TWO32 != 0
  }

  lemma {:induction false} LastTickIn(es: seq<TrueEvent>)
    ensures LastTick(es).Some? ==> TickAt(LastTick(es).value) in es
  {
    if es != [] {
      LastTickIn(es[..|es| - 1]);
    }
  }

  lemma NeverZeroFits(es: seq<TrueEvent>, n: nat)
    requires NeverZero(es) && n < |es|
    ensures PeriodFits(es[..n], es[n])
  {
    LastTickIn(es[..n]);
    if LastTick(es[..n]).Some? {
      assert TickAt(LastTick(es[..n]).value) in es;
    }
  }

  /** Samples against true time: at the given rate for 10 ms and all the time since the first tick. */
  lemma RunKeepsTime(p: Params, es: seq<TrueEvent>)
    requires ValidParams(p) && InOrder(es) && NeverZero(es)
    requires NeverOverflows(p, OnClocks(es)) && p.maxPayload / p.frameBytes < 256
    ensures var l := EnterAll(p, OnClocks(es));
            && Balanced(l, p)
            && l.ms == Elapsed(es)
            && 1000 * l.generated + l.m.acc == p.rate * Elapsed(es)
  {
    forall i | 0 <= i < |es|
      ensures PeriodFits(es[..i], es[i])
    {
      NeverZeroFits(es, i);
    }
    FittingKeepsTime(p, es, |es|);
    assert es[..|es|] == es;
    RunBalances(p, OnClocks(es));
  }

  // ------------------------------------------------------------------
  // Filling and sending
  // ------------------------------------------------------------------

  /** The frames encoded are the most for which there are samples and space. */
  lemma FramesToFillIsMost(p: Params, ready: u32, stored: nat, f: nat)
    requires ValidParams(p) && stored <= p.maxPayload
    ensures f <= FramesToFill(p, ready, stored) <==>
            f * p.frameSamples <= ready && stored + f * p.frameBytes <= p.maxPayload
  {
    Quotient(ready, p.frameSamples, f);
    Quotient(p.maxPayload - stored, p.frameBytes, f);
  }

  /** Sending is due exactly when no further frame fits; otherwise less than a frame of samples is waiting. */
  predicate KeepsUp(m: Media, p: Params) {
    && (m.readyToSend <==> m.stored + p.frameBytes > p.maxPayload)
    && m.stored <= p.maxPayload
  }

  lemma TickKeepsUp(m: Media, p: Params, now: u32)
    requires ValidParams(p) && KeepsUp(m, p)
    ensures KeepsUp(OnTick(m, p, now), p)
    ensures !OnTick(m, p, now).readyToSend ==> OnTick(m, p, now).ready < p.frameSamples
  {
    if !m.readyToSend {
      var ready := Clocked(m, p, now).ready;
      var f := FramesToFill(p, ready, m.stored);
      FramesToFillIsMost(p, ready, m.stored, f);
      FramesToFillIsMost(p, ready, m.stored, f + 1);
      Distribute(f, 1, p.frameSamples);
      Distribute(f, 1, p.frameBytes);
    }
  }

  /** In every run sending is due exactly when no further frame fits the packet. */
  lemma {:induction false} RunKeepsUp(p: Params, events: seq<Event>)
    requires ValidParams(p) && p.frameBytes <= p.maxPayload
    ensures KeepsUp(EnterAll(p, events).m, p)
  {
    if events != [] {
      var front := events[..|events| - 1];
      RunKeepsUp(p, front);
      match events[|events| - 1]
      case Timer(now) => TickKeepsUp(EnterAll(p, front).m, p, now);
      case CanSend =>
    }
  }
}
