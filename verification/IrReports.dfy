/** The main loop's infrared part: from polls of the sampler to keyboard reports. */
module IrReports {
  import opened Words
  import opened Rc5Sampler
  import opened IrKeys

  const RELEASE_US := 100000

  /** The HID key for a decoded frame; 0 stands for no key. */
  function KeyOf(d: Rc5): byte {
    if d.address != 0x18 then 0
    else if d.command == 0x13 then 0x80       // volume up
    else if d.command == 0x03 then 0x81       // volume down
    else if d.command == 0x32 then 0x7F       // mute
    else if d.command == 0x10 then 0x52       // arrow up
    else if d.command == 0x08 then 0x51       // arrow down
    else if d.command == 0x15 then 0x50       // arrow left
    else if d.command == 0x0D then 0x4F       // arrow right
    else if d.command == 0x20 then 0x28       // enter
    else 0
  }

  /** The reports sent for a new key state: a release before every press. */
  function ReportsFor(d: Rc5): seq<byte> {
    if KeyOf(d) != 0 then [0, KeyOf(d)] else [0]
  }

  datatype Keys = Keys(data: Rc5, last: u32, log: seq<byte>)

  /** One pass of the loop at clock value `now`; a release reads the clock once more, at `later`. */
  function Pass(k: Keys, ir: Ir, now: u32, later: u32): Keys {
    if ir.active then k
    else if Seen(ir).Some? then Show(k.(last := now), Decode(Seen(ir).value))
    else if Sub32(now, k.last) > RELEASE_US then Show(k.(last := later), NO_KEY)
    else k
  }

  function Show(k: Keys, d: Rc5): Keys {
    if d == k.data then k else k.(data := d, log := k.log + ReportsFor(d))
  }

  class IrLoop {
    var rc5Data: Rc5
    var rc5Last: u32
    var rc5New: bool
    var log: seq<byte>     // the key codes handed to keyboard_update

    ghost function View(): Keys
      reads this
    {
      Keys(rc5Data, rc5Last, log)
    }

    constructor (now: u32)
      ensures View() == Keys(NO_KEY, now, []) && !rc5New
    {
      rc5Data, rc5Last, rc5New, log := NO_KEY, now, false, [];
    }

    /** Receives a new key press or release, then sends it. */
    method Poll(ir: IrSampler, now: u32, later: u32)
      requires !rc5New
      modifies this, ir
      ensures !rc5New
      ensures View() == Pass(old(View()), old(ir.View()), now, later)
      ensures ir.View() == AfterPoll(old(ir.View()))
    {
      if !ir.active {
        var dataNew := false;
        var data := NO_KEY;
        if ir.valueBits == 13 {
          rc5Last := now;
          data := Decode(ir.value);
          dataNew := true;
        } else if Sub32(now, rc5Last) > RELEASE_US {
          rc5Last := later;
          dataNew := true;
        }
        if dataNew && rc5Data != data {
          rc5New := true;
          rc5Data := data;
        }
        ir.valueBits := 0;
      }
      if rc5New {
        var key := KeyOf(rc5Data);
        if key != 0 {
          log := log + [0];
        }
        log := log + [key];
        rc5New := false;
      }
    }
  }

  // ------------------------------------------------------------------
  // The reported key, from the history of polls
  // ------------------------------------------------------------------

  /** What one poll met, at true time `t` (microseconds, unbounded); `later` is its second look at the clock. */
  datatype Poll = Busy | Quiet(t: nat, later: nat) | Arrival(t: nat, value: u32)

  function Clock(t: nat): u32 {
    t % TWO32
  }

  function PassOf(k: Keys, p: Poll): Keys {
    match p
    case Busy => k
    case Quiet(t, later) => Pass(k, Ir(false, true, 0, 0, 0), Clock(t), Clock(later))
    case Arrival(t, value) => Pass(k, Ir(false, true, 0, value, FRAME_BITS), Clock(t), Clock(t))
  }

  /** A pass only depends on what the poll meets in the sampler. */
  lemma PassIsPassOf(k: Keys, ir: Ir, t: nat, later: nat)
    ensures Pass(k, ir, Clock(t), Clock(later)) == PassOf(k, PollOf(ir, t, later))
  {
  }

  function PollOf(ir: Ir, t: nat, later: nat): Poll {
    if ir.active then Busy else if Seen(ir).Some? then Arrival(t, ir.value) else Quiet(t, later)
  }

  function RunPolls(start: nat, h: seq<Poll>): Keys {
    if h == [] then Keys(NO_KEY, Clock(start), []) else PassOf(RunPolls(start, h[..|h| - 1]), h[|h| - 1])
  }

  /** The time of the last poll that found the sampler idle. */
  function LastIdle(start: nat, h: seq<Poll>): nat {
    if h == [] then start
    else match h[|h| - 1]
      case Busy => LastIdle(start, h[..|h| - 1])
      case Quiet(t, _) => t
      case Arrival(t, _) => t
  }

  /** Idle polls come in time order. */
  predicate InOrder(start: nat, h: seq<Poll>) {
    h == [] ||
    (InOrder(start, h[..|h| - 1]) && (!h[|h| - 1].Busy? ==> LastIdle(start, h[..|h| - 1]) <= h[|h| - 1].t))
  }

  /** The index of the last frame that arrived, or -1. */
  function LastArrival(h: seq<Poll>): (j: int)
    ensures -1 <= j < |h|
    ensures j >= 0 ==> h[j].Arrival?
    ensures forall k | j < k < |h| :: !h[k].Arrival?
  {
    if h == [] then -1
    else if h[|h| - 1].Arrival? then |h| - 1
    else LastArrival(h[..|h| - 1])
  }

  /** After poll `j` some idle poll came more than 100 ms later. */
  ghost predicate ReleasedAfter(h: seq<Poll>, j: nat)
    requires j < |h| && !h[j].Busy?
  {
    exists k :: j < k < |h| && h[k].Quiet? && h[k].t - h[j].t > 100000
  }

  /** What is held after history `h`: the last frame's message, unless it was released since. */
  ghost function Held(h: seq<Poll>): Rc5 {
    var j := LastArrival(h);
    if j < 0 || ReleasedAfter(h, j) then NO_KEY else Decode(h[j].value)
  }

  /** The age of a held frame that is due for release does not look recent modulo 2^32. */
  ghost predicate AgeFits(h: seq<Poll>, p: Poll) {
    var j := LastArrival(h);
    p.Quiet? && j >= 0 && !ReleasedAfter(h, j) && Decode(h[j].value) != NO_KEY && p.t - h[j].t > RELEASE_US ==>
      (p.t - h[j].t) % TWO32 > RELEASE_US
  }

  /** The 32-bit clock serves the history; in particular if idle polls are less than 2^32 - 100000 us apart. */
  ghost predicate WellTimed(start: nat, h: seq<Poll>) {
    InOrder(start, h) && forall n | 0 <= n < |h| :: AgeFits(h[..n], h[n])
  }

  function LastKey(log: seq<byte>): byte {
    if log == [] then 0 else log[|log| - 1]
  }

  /** While a frame is held, the loop's 32-bit time stamp is that frame's time. */
  ghost predicate Stamped(start: nat, h: seq<Poll>, k: Keys) {
    var j := LastArrival(h);
    j >= 0 && !ReleasedAfter(h, j) ==> k.last == Clock(h[j].t) && h[j].t <= LastIdle(start, h)
  }

  lemma ClockDifference(a: nat, b: nat)
    requires a <= b
    ensures Sub32(Clock(b), Clock(a)) == (b - a) % TWO32
  {
    var q, r := a / TWO32, b / TWO32;
    assert a == TWO32 * q + Clock(a) && b == TWO32 * r + Clock(b);
    if Clock(a) <= Clock(b) {
      WrapsTo(b - a, r - q, Clock(b) - Clock(a));
    } else {
      WrapsTo(b - a, r - q - 1, Clock(b) - Clock(a) + TWO32);
    }
  }

  lemma WrapsTo(x: int, q: int, r: u32)
    requires x == TWO32 * q + r
    ensures x % TWO32 == r
  {
  }

  lemma WellTimedFront(start: nat, h: seq<Poll>)
    requires h != [] && WellTimed(start, h)
    ensures WellTimed(start, h[..|h| - 1]) && AgeFits(h[..|h| - 1], h[|h| - 1])
  {
    var front := h[..|h| - 1];
    forall n | 0 <= n < |front|
      ensures AgeFits(front[..n], front[n])
    {
      assert front[..n] == h[..n] && AgeFits(h[..n], h[n]);
    }
  }

  /** The decoded state is what the history says is held, and the last report is its key. */
  lemma {:induction false} HeldIsReported(start: nat, h: seq<Poll>)
    requires WellTimed(start, h)
    ensures RunPolls(start, h).data == Held(h)
    ensures LastKey(RunPolls(start, h).log) == KeyOf(Held(h))
    ensures Stamped(start, h, RunPolls(start, h))
  {
    if h != [] {
      var front, p := h[..|h| - 1], h[|h| - 1];
      WellTimedFront(start, h);
      HeldIsReported(start, front);
      HeldStep(start, front, p, RunPolls(start, front));
      LastKeyOf(RunPolls(start, front), p);
      assert front + [p] == h;
    }
  }

  ghost predicate Right(start: nat, h: seq<Poll>) {
    RunPolls(start, h).data == Held(h)
  }

  lemma RightStep(start: nat, h: seq<Poll>, n: nat)
    requires InOrder(start, h) && n < |h| && WellTimed(start, h[..n])
    ensures Right(start, h[..n + 1]) <==> AgeFits(h[..n], h[n])
  {
    HeldIsReported(start, h[..n]);
    InOrderPrefix(start, h, n + 1);
    assert h[..n + 1] == h[..n] + [h[n]] && h[..n + 1][..n] == h[..n];
    HeldStep(start, h[..n], h[n], RunPolls(start, h[..n]));
  }

  lemma {:induction false} InOrderPrefix(start: nat, h: seq<Poll>, n: nat)
    requires InOrder(start, h) && n <= |h|
    ensures InOrder(start, h[..n])
    decreases |h|
  {
    if n < |h| {
      InOrderPrefix(start, h[..|h| - 1], n);
      assert h[..|h| - 1][..n] == h[..n];
    } else {
      assert h[..n] == h;
    }
  }

  /** With idle polls in order, the decoded state is right all along if and only if no held frame's age wraps. */
  lemma HeldIff(start: nat, h: seq<Poll>)
    requires InOrder(start, h)
    ensures (forall n | 0 <= n <= |h| :: Right(start, h[..n])) <==> WellTimed(start, h)
  {
    if WellTimed(start, h) {
      forall n | 0 <= n <= |h|
        ensures Right(start, h[..n])
      {
        TimedPrefix(start, h, n);
        HeldIsReported(start, h[..n]);
      }
    }
    if forall n | 0 <= n <= |h| :: Right(start, h[..n]) {
      RightIsTimed(start, h, |h|);
      assert h[..|h|] == h;
    }
  }

  lemma TimedPrefix(start: nat, h: seq<Poll>, n: nat)
    requires InOrder(start, h) && n <= |h| && forall i | 0 <= i < n :: AgeFits(h[..i], h[i])
    ensures WellTimed(start, h[..n])
  {
    InOrderPrefix(start, h, n);
    forall i | 0 <= i < n
      ensures AgeFits(h[..n][..i], h[..n][i])
    {
      assert h[..n][..i] == h[..i];
    }
  }

  lemma {:induction false} RightIsTimed(start: nat, h: seq<Poll>, n: nat)
    requires InOrder(start, h) && n <= |h| && forall i | 0 <= i <= n :: Right(start, h[..i])
    ensures WellTimed(start, h[..n])
  {
    if n > 0 {
      RightIsTimed(start, h, n - 1);
      RightStep(start, h, n - 1);
      forall i | 0 <= i < n
        ensures AgeFits(h[..i], h[i])
      {
        if i < n - 1 {
          assert h[..n - 1][..i] == h[..i] && AgeFits(h[..n - 1][..i], h[..n - 1][i]);
        }
      }
    }
    TimedPrefix(start, h, n);
  }

  /** At a poll 2^32 us after a frame its age looks like 0, and the key is not released. */
  lemma WrappedAgeKeepsKey(value: u32, later: nat)
    requires Decode(value) != NO_KEY
    ensures !Right(0, [Arrival(0, value)] + [Quiet(TWO32, later)])
  {
    var a, h := Arrival(0, value), [Arrival(0, value)] + [Quiet(TWO32, later)];
    assert h[..1] == [a] && [a][..0] == [] && h[..2] == h;
    assert InOrder(0, []) && InOrder(0, [a]);
    assert AgeFits([], a);
    assert WellTimed(0, [a]);
    assert LastArrival([a]) == 0 && !ReleasedAfter([a], 0);
    RightStep(0, h, 1);
  }

  /** Idle polls less than 2^32 - 100000 us apart are well timed. */
  lemma {:induction false} ShortGapsFit(start: nat, h: seq<Poll>)
    requires InOrder(start, h) && ShortGaps(start, h)
    ensures WellTimed(start, h)
    ensures Recent(start, h)
  {
    if h != [] {
      var front, p := h[..|h| - 1], h[|h| - 1];
      ShortGapsFit(start, front);
      assert front + [p] == h;
      forall n | 0 <= n < |h|
        ensures AgeFits(h[..n], h[n])
      {
        if n < |front| {
          assert front[..n] == h[..n] && AgeFits(front[..n], front[n]);
        }
      }
      RecentStep(start, front, p);
    }
  }

  predicate ShortGaps(start: nat, h: seq<Poll>) {
    h == [] ||
    (var front, p := h[..|h| - 1], h[|h| - 1];
     ShortGaps(start, front) && (!p.Busy? ==> p.t < LastIdle(start, front) + TWO32 - RELEASE_US))
  }

  /** A frame still held was not yet due at the last idle poll. */
  ghost predicate Recent(start: nat, h: seq<Poll>) {
    var j := LastArrival(h);
    j >= 0 && !ReleasedAfter(h, j) ==> h[j].t <= LastIdle(start, h) <= h[j].t + RELEASE_US
  }

  lemma RecentStep(start: nat, h: seq<Poll>, p: Poll)
    requires Recent(start, h) && (!p.Busy? ==> LastIdle(start, h) <= p.t)
    ensures Recent(start, h + [p])
  {
    var j := LastArrival(h);
    assert (h + [p])[..|h|] == h;
    if j >= 0 && !p.Arrival? {
      ReleasedStep(h, p, j);
    }
  }

  lemma ReleasedStep(h: seq<Poll>, p: Poll, j: nat)
    requires j < |h| && !h[j].Busy?
    ensures ReleasedAfter(h + [p], j) <==> ReleasedAfter(h, j) || (p.Quiet? && p.t - h[j].t > RELEASE_US)
  {
    var h' := h + [p];
    if p.Quiet? && p.t - h[j].t > RELEASE_US {
      assert h'[|h|].Quiet?;
    }
    if k :| j < k < |h| && h[k].Quiet? && h[k].t - h[j].t > RELEASE_US {
      assert h'[k].Quiet?;
    }
  }

  /** A busy sampler changes nothing. */
  lemma BusyStep(start: nat, h: seq<Poll>, k: Keys)
    requires k.data == Held(h) && Stamped(start, h, k)
    ensures Held(h + [Busy]) == Held(h) && Stamped(start, h + [Busy], k)
  {
    var h', j := h + [Busy], LastArrival(h);
    assert h'[..|h|] == h;
    if j >= 0 {
      ReleasedStep(h, Busy, j);
    }
  }

  /** A frame that arrives is held. */
  lemma ArrivalStep(start: nat, h: seq<Poll>, k: Keys, t: nat, value: u32)
    ensures Held(h + [Arrival(t, value)]) == Decode(value)
    ensures k.last == Clock(t) ==> Stamped(start, h + [Arrival(t, value)], k)
  {
  }

  lemma QuietKeeps(start: nat, h: seq<Poll>, t: nat, later: nat)
    ensures var h', j := h + [Quiet(t, later)], LastArrival(h);
            && LastArrival(h') == j && LastIdle(start, h') == t
            && (j >= 0 ==> h'[j] == h[j] &&
                           (ReleasedAfter(h', j) <==> ReleasedAfter(h, j) || t - h[j].t > RELEASE_US))
  {
    assert (h + [Quiet(t, later)])[..|h|] == h;
    if LastArrival(h) >= 0 {
      ReleasedStep(h, Quiet(t, later), LastArrival(h));
    }
  }

  /** An idle poll releases the frame exactly when it is more than 100 ms old, unless its age wraps. */
  lemma QuietStep(start: nat, h: seq<Poll>, t: nat, later: nat, k: Keys)
    requires LastIdle(start, h) <= t && k.data == Held(h) && Stamped(start, h, k)
    ensures PassOf(k, Quiet(t, later)).data == Held(h + [Quiet(t, later)]) <==> AgeFits(h, Quiet(t, later))
    ensures AgeFits(h, Quiet(t, later)) ==> Stamped(start, h + [Quiet(t, later)], PassOf(k, Quiet(t, later)))
  {
    var j := LastArrival(h);
    QuietKeeps(start, h, t, later);
    if j >= 0 && !ReleasedAfter(h, j) {
      ClockDifference(h[j].t, t);
      if t - h[j].t <= RELEASE_US {
        SmallModulo(t - h[j].t, TWO32);
      }
    }
  }

  /** A pass sends reports exactly when it changes the decoded state. */
  lemma PassReports(k: Keys, p: Poll)
    ensures PassOf(k, p).log == k.log + if PassOf(k, p).data == k.data then [] else ReportsFor(PassOf(k, p).data)
  {
  }

  lemma LastKeyOf(k: Keys, p: Poll)
    requires LastKey(k.log) == KeyOf(k.data)
    ensures LastKey(PassOf(k, p).log) == KeyOf(PassOf(k, p).data)
  {
    PassReports(k, p);
  }

  lemma HeldStep(start: nat, h: seq<Poll>, p: Poll, k: Keys)
    requires !p.Busy? ==> LastIdle(start, h) <= p.t
    requires k.data == Held(h) && Stamped(start, h, k)
    ensures PassOf(k, p).data == Held(h + [p]) <==> AgeFits(h, p)
    ensures AgeFits(h, p) ==> Stamped(start, h + [p], PassOf(k, p))
  {
    match p
    case Busy => BusyStep(start, h, k);
    case Quiet(t, later) => QuietStep(start, h, t, later, k);
    case Arrival(t, value) => ArrivalStep(start, h, PassOf(k, p), t, value);
  }

  /** Reports are sent exactly when what is held changes: repeats of a frame send nothing. */
  lemma ReportsOnChange(start: nat, h: seq<Poll>, p: Poll)
    requires WellTimed(start, h + [p])
    ensures var key := KeyOf(Held(h + [p]));
            RunPolls(start, h + [p]).log ==
            RunPolls(start, h).log + if Held(h + [p]) == Held(h) then [] else if key == 0 then [0] else [0, key]
  {
    assert (h + [p])[..|h|] == h;
    WellTimedFront(start, h + [p]);
    HeldIsReported(start, h);
    HeldIsReported(start, h + [p]);
    PassReports(RunPolls(start, h), p);
  }

  /** The reports that a history calls for. */
  ghost function HeldLog(h: seq<Poll>): seq<byte> {
    if h == [] then []
    else
      var front := h[..|h| - 1];
      HeldLog(front) +
      if Held(h) == Held(front) then [] else if KeyOf(Held(h)) == 0 then [0] else [0, KeyOf(Held(h))]
  }

  lemma {:induction false} LogIsHeldLog(start: nat, h: seq<Poll>)
    requires WellTimed(start, h)
    ensures RunPolls(start, h).log == HeldLog(h)
  {
    if h != [] {
      var front := h[..|h| - 1];
      WellTimedFront(start, h);
      LogIsHeldLog(start, front);
      assert front + [h[|h| - 1]] == h;
      ReportsOnChange(start, front, h[|h| - 1]);
    }
  }

  /** Every key is released before it is reported. */
  predicate ReleasedFirst(log: seq<byte>) {
    forall i | 0 <= i < |log| && log[i] != 0 :: i > 0 && log[i - 1] == 0
  }

  lemma {:induction false} ReleaseBeforePress(start: nat, h: seq<Poll>)
    ensures ReleasedFirst(RunPolls(start, h).log)
  {
    if h != [] {
      var front, p := h[..|h| - 1], h[|h| - 1];
      ReleaseBeforePress(start, front);
      PassReports(RunPolls(start, front), p);
      ReleasedThen(RunPolls(start, front).log, RunPolls(start, h).data);
    }
  }

  lemma ReleasedThen(log: seq<byte>, d: Rc5)
    requires ReleasedFirst(log)
    ensures ReleasedFirst(log + ReportsFor(d))
  {
  }

  /** The buttons of the remote control that have a key: command number and HID key code. */
  const BUTTONS: seq<(nat, byte)> := [
    (0x13, 0x80), (0x03, 0x81), (0x32, 0x7F), (0x10, 0x52), (0x08, 0x51), (0x15, 0x50), (0x0D, 0x4F), (0x20, 0x28)
  ]

  /** One frame of a button, as a number: 0x1000 is the field bit, 0x18 the address. */
  function ButtonFrame(control: nat, command: nat): u32
    requires control < 2 && command < 64
  {
    0x1000 + 0x800 * control + 0x40 * 0x18 + command
  }

  lemma ButtonDecodes(control: nat, command: nat)
    requires control < 2 && command < 64
    ensures Decode(ButtonFrame(control, command)) == Rc5(control, 0x18, command)
  {
    FieldsOf(1, control, 0x18, command);
  }

  /** From start, one frame of a button sends a release and then the button's key. */
  lemma ButtonIsReported(start: nat, t: nat, control: nat, i: nat)
    requires control < 2 && i < |BUTTONS| && BUTTONS[i].0 < 64
    ensures RunPolls(start, [Arrival(t, ButtonFrame(control, BUTTONS[i].0))]).log == [0, BUTTONS[i].1]
  {
    var h := [Arrival(t, ButtonFrame(control, BUTTONS[i].0))];
    ButtonDecodes(control, BUTTONS[i].0);
    assert h[..0] == [];
    ButtonKey(i, control);
    PassReports(RunPolls(start, []), h[0]);
  }

  lemma ButtonKey(i: nat, control: nat)
    requires i < |BUTTONS|
    ensures KeyOf(Rc5(control, 0x18, BUTTONS[i].0)) == BUTTONS[i].1
  {
  }

  /** Every other message has no key. */
  lemma OtherButtons(d: Rc5)
    ensures KeyOf(d) != 0 <==> d.address == 0x18 && exists i :: 0 <= i < |BUTTONS| && BUTTONS[i].0 == d.command
  {
    assert BUTTONS[0].0 == 0x13 && BUTTONS[1].0 == 0x03 && BUTTONS[2].0 == 0x32 && BUTTONS[3].0 == 0x10;
    assert BUTTONS[4].0 == 0x08 && BUTTONS[5].0 == 0x15 && BUTTONS[6].0 == 0x0D && BUTTONS[7].0 == 0x20;
  }

  /** A repeat of the held frame sends nothing. */
  lemma RepeatIsSilent(start: nat, h: seq<Poll>, value: u32, t: nat)
    requires WellTimed(start, h + [Arrival(t, value)])
    requires var j := LastArrival(h); j >= 0 && h[j].value == value && !ReleasedAfter(h, j)
    ensures RunPolls(start, h + [Arrival(t, value)]).log == RunPolls(start, h).log
  {
    assert (h + [Arrival(t, value)])[..|h|] == h;
    WellTimedFront(start, h + [Arrival(t, value)]);
    HeldIsReported(start, h);
  }

  /** An idle line polled more than 100 ms after the last frame releases the key. */
  lemma SilenceReleases(start: nat, h: seq<Poll>, t: nat, later: nat)
    requires WellTimed(start, h + [Quiet(t, later)])
    requires var j := LastArrival(h); j >= 0 && t - h[j].t > 100000
    ensures RunPolls(start, h + [Quiet(t, later)]).data == NO_KEY
    ensures LastKey(RunPolls(start, h + [Quiet(t, later)]).log) == 0
  {
    var h' := h + [Quiet(t, later)];
    assert h'[..|h|] == h;
    HeldIsReported(start, h');
    ReleasedStep(h, Quiet(t, later), LastArrival(h));
  }
}
