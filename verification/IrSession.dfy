/** From the infrared pin and the poll times to the keyboard reports. */
module IrSession {
  import opened Words
  import opened Rc5Sampler
  import opened IrKeys
  import opened IrReports

  /** A tick of the sampler, or a pass of the main loop that reads the clock at times `t` and `later` (microseconds). */
  datatype Moment = AtTick(level: bool) | AtPoll(t: nat, later: nat)

  datatype Live = Live(ir: Ir, keys: Keys)

  function Happen(s: Live, m: Moment): Live {
    match m
    case AtTick(level) => s.(ir := Tick(s.ir, level))
    case AtPoll(t, later) => Live(AfterPoll(s.ir), Pass(s.keys, s.ir, Clock(t), Clock(later)))
  }

  function HappenAll(s: Live, moments: seq<Moment>): Live {
    if moments == [] then s else Happen(HappenAll(s, moments[..|moments| - 1]), moments[|moments| - 1])
  }

  function AtStart(ir: Ir, start: nat): Live {
    Live(ir, Keys(NO_KEY, Clock(start), []))
  }

  // ------------------------------------------------------------------
  // The same moments as the sampler and as the reports see them
  // ------------------------------------------------------------------

  function EventOf(m: Moment): Event {
    match m
    case AtTick(level) => Sampled(level)
    case AtPoll(_, _) => Polled
  }

  function Untimed(moments: seq<Moment>): seq<Event> {
    if moments == [] then [] else Untimed(moments[..|moments| - 1]) + [EventOf(moments[|moments| - 1])]
  }

  lemma {:induction false} UntimedConcat(a: seq<Moment>, b: seq<Moment>)
    ensures Untimed(a + b) == Untimed(a) + Untimed(b)
  {
    if b == [] {
      assert a + b == a;
    } else {
      assert (a + b)[..|a + b| - 1] == a + b[..|b| - 1];
      UntimedConcat(a, b[..|b| - 1]);
    }
  }

  /** What the polls meet in the sampler. */
  function History(ir: Ir, moments: seq<Moment>): seq<Poll> {
    if moments == [] then []
    else
      var front := moments[..|moments| - 1];
      match moments[|moments| - 1]
      case AtTick(_) => History(ir, front)
      case AtPoll(t, later) => History(ir, front) + [PollOf(HandleAll(Polling(ir, []), Untimed(front)).ir, t, later)]
  }

  /** The frames that arrive in a history. */
  function Arrived(h: seq<Poll>): seq<u32> {
    if h == [] then []
    else
      match h[|h| - 1]
      case Arrival(_, value) => Arrived(h[..|h| - 1]) + [value]
      case _ => Arrived(h[..|h| - 1])
  }

  lemma ArrivedSnoc(h: seq<Poll>, p: Poll)
    ensures Arrived(h + [p]) == Arrived(h) + if p.Arrival? then [p.value] else []
  {
    assert (h + [p])[..|h|] == h;
  }

  lemma RunPollsSnoc(start: nat, h: seq<Poll>, p: Poll)
    ensures RunPolls(start, h + [p]) == PassOf(RunPolls(start, h), p)
  {
    assert (h + [p])[..|h|] == h;
  }

  lemma {:induction false} LiveIsBoth(ir: Ir, start: nat, moments: seq<Moment>)
    ensures var s, p := HappenAll(AtStart(ir, start), moments), HandleAll(Polling(ir, []), Untimed(moments));
            && s.ir == p.ir
            && s.keys == RunPolls(start, History(ir, moments))
            && Arrived(History(ir, moments)) == p.frames
  {
    if moments != [] {
      var front, m := moments[..|moments| - 1], moments[|moments| - 1];
      LiveIsBoth(ir, start, front);
      var s, p := HappenAll(AtStart(ir, start), front), HandleAll(Polling(ir, []), Untimed(front));
      assert Untimed(moments)[..|Untimed(moments)| - 1] == Untimed(front);
      if m.AtPoll? {
        PassIsPassOf(s.keys, s.ir, m.t, m.later);
        RunPollsSnoc(start, History(ir, front), PollOf(p.ir, m.t, m.later));
        ArrivedSnoc(History(ir, front), PollOf(p.ir, m.t, m.later));
      }
    }
  }

  // ------------------------------------------------------------------
  // The log, from the messages sent
  // ------------------------------------------------------------------

  /** What is held after history `h` when the frames arriving are those of `messages`. */
  ghost function HeldMessage(h: seq<Poll>, messages: seq<Rc5>): Rc5
    requires |Arrived(h)| <= |messages|
  {
    var j, n := LastArrival(h), |Arrived(h)|;
    if j < 0 || n == 0 || ReleasedAfter(h, j) then NO_KEY else messages[n - 1]
  }

  lemma ArrivedPrefix(h: seq<Poll>)
    requires h != []
    ensures Arrived(h[..|h| - 1]) <= Arrived(h)
  {
  }

  /** The reports for the messages: at each change of the held message, and at its release after 100 ms of silence. */
  ghost function MessageLog(h: seq<Poll>, messages: seq<Rc5>): seq<byte>
    requires |Arrived(h)| <= |messages|
  {
    if h == [] then []
    else
      var front := h[..|h| - 1];
      ArrivedPrefix(h);
      var before, now := HeldMessage(front, messages), HeldMessage(h, messages);
      MessageLog(front, messages) +
      if now == before then [] else if KeyOf(now) == 0 then [0] else [0, KeyOf(now)]
  }

  /** How often the held message changes to one that has a key (or to one that has none). */
  ghost function Changes(h: seq<Poll>, messages: seq<Rc5>, toKey: bool): nat
    requires |Arrived(h)| <= |messages|
  {
    if h == [] then 0
    else
      var front := h[..|h| - 1];
      ArrivedPrefix(h);
      var before, now := HeldMessage(front, messages), HeldMessage(h, messages);
      Changes(front, messages, toKey) + if now != before && (KeyOf(now) != 0) == toKey then 1 else 0
  }

  /** Two reports for each change to a key, one for each change to none. */
  lemma {:induction false} LogLength(h: seq<Poll>, messages: seq<Rc5>)
    requires |Arrived(h)| <= |messages|
    ensures |MessageLog(h, messages)| == 2 * Changes(h, messages, true) + Changes(h, messages, false)
  {
    if h != [] {
      ArrivedPrefix(h);
      LogLength(h[..|h| - 1], messages);
    }
  }

  predicate Decodes(frames: seq<u32>, messages: seq<Rc5>) {
    |frames| <= |messages| && forall i | 0 <= i < |frames| :: Decode(frames[i]) == messages[i]
  }

  lemma {:induction false} LastArrived(h: seq<Poll>)
    ensures LastArrival(h) >= 0 <==> Arrived(h) != []
    ensures LastArrival(h) >= 0 ==> h[LastArrival(h)].value == Arrived(h)[|Arrived(h)| - 1]
  {
    if h != [] {
      LastArrived(h[..|h| - 1]);
    }
  }

  lemma HeldIsMessage(h: seq<Poll>, messages: seq<Rc5>)
    requires Decodes(Arrived(h), messages)
    ensures Held(h) == HeldMessage(h, messages)
  {
    LastArrived(h);
  }

  lemma {:induction false} HeldLogIsMessageLog(h: seq<Poll>, messages: seq<Rc5>)
    requires Decodes(Arrived(h), messages)
    ensures HeldLog(h) == MessageLog(h, messages)
  {
    if h != [] {
      var front := h[..|h| - 1];
      ArrivedPrefix(h);
      HeldLogIsMessageLog(front, messages);
      HeldIsMessage(front, messages);
      HeldIsMessage(h, messages);
    }
  }

  // ------------------------------------------------------------------
  // A session
  // ------------------------------------------------------------------

  /** One transmission: ticks of a valid frame for the message mixed with polls, and a poll after it. */
  datatype TimedSent = TimedSent(message: Rc5, frame: Frame, moments: seq<Moment>, t: nat, later: nat)

  function SentOf(t: TimedSent): Sent {
    Sent(t.message, t.frame, Untimed(t.moments))
  }

  function AllSent(sent: seq<TimedSent>): (r: seq<Sent>)
    ensures |r| == |sent| && forall i | 0 <= i < |sent| :: r[i] == SentOf(sent[i])
  {
    if sent == [] then [] else AllSent(sent[..|sent| - 1]) + [SentOf(sent[|sent| - 1])]
  }

  function Messages(sent: seq<TimedSent>): (r: seq<Rc5>)
    ensures |r| == |sent| && forall i | 0 <= i < |sent| :: r[i] == sent[i].message
  {
    if sent == [] then [] else Messages(sent[..|sent| - 1]) + [sent[|sent| - 1].message]
  }

  function Closing(s: TimedSent): Moment {
    AtPoll(s.t, s.later)
  }

  function Moments(sent: seq<TimedSent>): seq<Moment> {
    if sent == [] then []
    else Moments(sent[..|sent| - 1]) + (sent[|sent| - 1].moments + [Closing(sent[|sent| - 1])])
  }

  lemma {:induction false} MomentsAreStream(sent: seq<TimedSent>)
    ensures Untimed(Moments(sent)) == Stream(AllSent(sent))
  {
    if sent != [] {
      var front, t := sent[..|sent| - 1], sent[|sent| - 1];
      var closing := [Closing(t)];
      MomentsAreStream(front);
      UntimedConcat(Moments(front), t.moments + closing);
      UntimedConcat(t.moments, closing);
      assert closing[..0] == [] && Untimed(closing) == [Polled];
      assert AllSent(sent)[..|sent| - 1] == AllSent(front);
    }
  }

  /** Each message sent arrives once, in order. */
  lemma SessionArrivals(ir: Ir, sent: seq<TimedSent>)
    requires Consumed(ir) && forall t | t in sent :: ValidSent(SentOf(t))
    ensures var frames := Arrived(History(ir, Moments(sent)));
            |frames| == |sent| && Decodes(frames, Messages(sent))
  {
    LiveIsBoth(ir, 0, Moments(sent));
    MomentsAreStream(sent);
    SessionDecodes(ir, AllSent(sent));
  }

  /** From pin levels and poll times to the log of reports: those that the messages sent call for, and no others. */
  lemma SessionReports(ir: Ir, start: nat, sent: seq<TimedSent>)
    requires Consumed(ir) && forall t | t in sent :: ValidSent(SentOf(t))
    requires WellTimed(start, History(ir, Moments(sent)))
    ensures var h := History(ir, Moments(sent));
            && |Arrived(h)| == |sent|
            && var log := HappenAll(AtStart(ir, start), Moments(sent)).keys.log;
            && log == MessageLog(h, Messages(sent)) && ReleasedFirst(log)
            && |log| == 2 * Changes(h, Messages(sent), true) + Changes(h, Messages(sent), false)
  {
    var h := History(ir, Moments(sent));
    SessionArrivals(ir, sent);
    LiveIsBoth(ir, start, Moments(sent));
    LogIsHeldLog(start, h);
    HeldLogIsMessageLog(h, Messages(sent));
    ReleaseBeforePress(start, h);
    LogLength(h, Messages(sent));
  }
}
