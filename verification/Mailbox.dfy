/** The one-slot mailbox between the scanning core and the reading core, with its spill buffer. */
module Mailbox {
  import opened Words

  const QUEUE_SIZE := 30

  datatype Event = Event(down: bool, row: int, col: int)

  // ------------------------------------------------------------------
  // The operations, each taken as a whole
  // ------------------------------------------------------------------

  /** What the shared and the private variables hold between operations. */
  datatype Box = Box(slot: Event, present: bool, queue: seq<Event>)

  /** A new event goes to the slot if that is free, else to the spill buffer if that has room. */
  function Offer(b: Box, e: Event): Box {
    if !b.present then b.(slot := e, present := true)
    else if |b.queue| < QUEUE_SIZE then b.(queue := b.queue + [e])
    else b
  }

  /** Moves the newest spilled event to a free slot. */
  function Refill(b: Box): Box {
    if b.present || b.queue == [] then b
    else Box(b.queue[|b.queue| - 1], true, b.queue[..|b.queue| - 1])
  }

  class MatrixMailbox {
    var matrixEvent: Event
    var dataPresent: bool
    var queue: array<Event>
    var queueIndex: nat

    ghost predicate Valid()
      reads this
    {
      queue.Length == QUEUE_SIZE && queueIndex <= QUEUE_SIZE
    }

    ghost function View(): Box
      requires Valid()
      reads this, queue
    {
      Box(matrixEvent, dataPresent, queue[..queueIndex])
    }

    constructor ()
      ensures Valid() && fresh(queue) && !dataPresent && View().queue == []
    {
      matrixEvent, dataPresent := Event(false, 0, 0), false;
      queue := new Event[QUEUE_SIZE](_ => Event(false, 0, 0));
      queueIndex := 0;
    }

    method QueuePut(e: Event)
      requires Valid()
      modifies this`queueIndex, queue
      ensures Valid()
      ensures queue[..queueIndex] == old(queue[..queueIndex]) + if old(queueIndex) < QUEUE_SIZE then [e] else []
    {
      if queueIndex < QUEUE_SIZE {
        queue[queueIndex] := e;
        queueIndex := queueIndex + 1;
      }
    }

    method QueueHandle()
      requires Valid()
      modifies this`queueIndex, this`matrixEvent, this`dataPresent
      ensures Valid() && View() == Refill(old(View()))
    {
      if !dataPresent {
        if queueIndex != 0 {
          queueIndex := queueIndex - 1;
          matrixEvent := queue[queueIndex];
          dataPresent := true;
        }
      }
    }

    method EventQueue(e: Event)
      requires Valid()
      modifies this`queueIndex, this`matrixEvent, this`dataPresent, queue
      ensures Valid() && View() == Offer(old(View()), e)
    {
      if dataPresent {
        QueuePut(e);
      } else {
        matrixEvent := e;
        dataPresent := true;
      }
    }

    /** Called only after the caller saw that an event is available. */
    method GetEvent() returns (e: Event)
      requires Valid() && dataPresent
      modifies this`dataPresent
      ensures Valid() && e == old(View()).slot && View() == old(View()).(present := false)
    {
      e := matrixEvent;
      dataPresent := false;
    }
  }

  // ------------------------------------------------------------------
  // The two cores, one memory access at a time
  // ------------------------------------------------------------------

  datatype Field = Down | Row | Col

  function Copy(to: Event, from: Event, f: Field): Event {
    match f
    case Down => to.(down := from.down)
    case Row => to.(row := from.row)
    case Col => to.(col := from.col)
  }

  const FIELDS: set<Field> := {Down, Row, Col}

  /** Scanning between operations; about to spill; writing the slot field by field, flag last. */
  datatype Producer = Scanning | Spilling(e: Event) | Writing(e: Event, left: set<Field>)

  /** Between reads; or copying the slot field by field, to clear the flag last. */
  datatype Consumer = Waiting | Reading(got: Event, left: set<Field>)

  datatype State = State(
    slot: Event, present: bool, queue: seq<Event>,
    producer: Producer, consumer: Consumer,
    generated: multiset<Event>, delivered: multiset<Event>, dropped: multiset<Event>)

  datatype Action =
    | Generate(e: Event)      // event_queue starts: it reads the flag
    | Spill                   // queue_put
    | TakeBack                // queue_handle starts: it reads the flag
    | WriteField(f: Field)
    | Publish                 // the flag is set
    | StartRead               // the consumer has seen the flag
    | ReadField(f: Field)
    | Finish                  // the consumer clears the flag and returns its copy

  predicate Enabled(s: State, a: Action) {
    match a
    case Generate(_) => s.producer.Scanning?
    case Spill => s.producer.Spilling?
    case TakeBack => s.producer.Scanning?
    case WriteField(f) => s.producer.Writing? && f in s.producer.left
    case Publish => s.producer.Writing? && s.producer.left == {}
    case StartRead => s.consumer.Waiting? && s.present
    case ReadField(f) => s.consumer.Reading? && f in s.consumer.left
    case Finish => s.consumer.Reading? && s.consumer.left == {}
  }

  function Do(s: State, a: Action): State
    requires Enabled(s, a)
  {
    match a
    case Generate(e) =>
      s.(producer := if s.present then Spilling(e) else Writing(e, FIELDS), generated := s.generated + multiset{e})
    case Spill =>
      var e := s.producer.e;
      if |s.queue| < QUEUE_SIZE then s.(producer := Scanning, queue := s.queue + [e])
      else s.(producer := Scanning, dropped := s.dropped + multiset{e})
    case TakeBack =>
      if s.present || s.queue == [] then s
      else s.(producer := Writing(s.queue[|s.queue| - 1], FIELDS), queue := s.queue[..|s.queue| - 1])
    case WriteField(f) =>
      s.(slot := Copy(s.slot, s.producer.e, f), producer := Writing(s.producer.e, s.producer.left - {f}))
    case Publish => s.(present := true, producer := Scanning)
    case StartRead => s.(consumer := Reading(s.slot, FIELDS))
    case ReadField(f) => s.(consumer := Reading(Copy(s.consumer.got, s.slot, f), s.consumer.left - {f}))
    case Finish => s.(present := false, consumer := Waiting, delivered := s.delivered + multiset{s.consumer.got})
  }

  function Initial(garbage: Event): State {
    State(garbage, false, [], Scanning, Waiting, multiset{}, multiset{}, multiset{})
  }

  /** The state after a run of actions, in any interleaving; None if one of them is not enabled. */
  function After(s: State, actions: seq<Action>): Option<State> {
    if actions == [] then Some(s)
    else
      var front, a := After(s, actions[..|actions| - 1]), actions[|actions| - 1];
      if front.None? || !Enabled(front.value, a) then None else Some(Do(front.value, a))
  }

  // ------------------------------------------------------------------
  // Safety
  // ------------------------------------------------------------------

  /** `a` and `b` agree on the fields that are not in `left`. */
  predicate AgreeOutside(a: Event, b: Event, left: set<Field>) {
    && (Down !in left ==> a.down == b.down)
    && (Row !in left ==> a.row == b.row)
    && (Col !in left ==> a.col == b.col)
  }

  /** Events that are neither delivered, queued nor dropped: in the slot, or in the producer's hands. */
  function InFlight(s: State): multiset<Event> {
    (if s.present then multiset{s.slot} else multiset{}) +
    (if s.producer.Scanning? then multiset{} else multiset{s.producer.e})
  }

  /** Who may touch the slot, and that what was copied so far is right. */
  predicate SlotSafe(s: State) {
    && (s.producer.Writing? ==> !s.present && AgreeOutside(s.slot, s.producer.e, s.producer.left))
    && (s.consumer.Reading? ==> s.present && AgreeOutside(s.consumer.got, s.slot, s.consumer.left))
  }

  /** Every generated event is delivered, in flight, spilled or dropped. */
  predicate Conserved(s: State) {
    s.generated == s.delivered + InFlight(s) + multiset(s.queue) + s.dropped
  }

  lemma DoKeepsSlotSafe(s: State, a: Action)
    requires SlotSafe(s) && Enabled(s, a)
    ensures SlotSafe(Do(s, a))
    ensures a.Publish? ==> s.slot == s.producer.e
    ensures a.Finish? ==> s.consumer.got == s.slot
  {
  }

  lemma GenerateConserves(s: State, e: Event)
    requires Conserved(s) && s.producer.Scanning?
    ensures Conserved(Do(s, Generate(e)))
  {
    assert InFlight(Do(s, Generate(e))) == InFlight(s) + multiset{e};
  }

  lemma SpillConserves(s: State)
    requires Conserved(s) && s.producer.Spilling?
    ensures Conserved(Do(s, Spill))
  {
    var t, e := Do(s, Spill), s.producer.e;
    assert InFlight(s) == InFlight(t) + multiset{e};
    if |s.queue| < QUEUE_SIZE {
      assert multiset(s.queue + [e]) == multiset(s.queue) + multiset{e};
    }
  }

  lemma TakeBackConserves(s: State)
    requires Conserved(s) && s.producer.Scanning?
    ensures Conserved(Do(s, TakeBack))
  {
    if !s.present && s.queue != [] {
      var k := |s.queue| - 1;
      var t := Do(s, TakeBack);
      assert s.queue == s.queue[..k] + [s.queue[k]];
      assert multiset(s.queue) == multiset(s.queue[..k]) + multiset{s.queue[k]};
      assert InFlight(t) == InFlight(s) + multiset{s.queue[k]};
    }
  }

  lemma DoConserves(s: State, a: Action)
    requires SlotSafe(s) && Conserved(s) && Enabled(s, a)
    ensures Conserved(Do(s, a))
  {
    DoKeepsSlotSafe(s, a);
    match a
    case Generate(e) => GenerateConserves(s, e);
    case Spill => SpillConserves(s);
    case TakeBack => TakeBackConserves(s);
    case Finish => assert InFlight(s) == InFlight(Do(s, a)) + multiset{s.consumer.got};
    case _ => assert InFlight(Do(s, a)) == InFlight(s);
  }

  predicate Safe(s: State) {
    SlotSafe(s) && Conserved(s) && |s.queue| <= QUEUE_SIZE
  }

  /** In every interleaving: no half-written event is copied, and no event is lost or made up. */
  lemma {:induction false} RunIsSafe(garbage: Event, actions: seq<Action>)
    requires After(Initial(garbage), actions).Some?
    ensures Safe(After(Initial(garbage), actions).value)
  {
    if actions != [] {
      var front, a := actions[..|actions| - 1], actions[|actions| - 1];
      RunIsSafe(garbage, front);
      DoKeepsSlotSafe(After(Initial(garbage), front).value, a);
      DoConserves(After(Initial(garbage), front).value, a);
    }
  }

  lemma SafeDelivered(s: State)
    requires Conserved(s)
    ensures s.delivered <= s.generated
  {
  }

  /** What the consumer returns is the published event, and the events delivered were all generated. */
  lemma DeliveredWasGenerated(garbage: Event, actions: seq<Action>)
    requires After(Initial(garbage), actions).Some?
    ensures var s := After(Initial(garbage), actions).value;
            && s.delivered <= s.generated
            && (Enabled(s, Finish) ==> s.consumer.got == s.slot && s.present && !s.producer.Writing?)
  {
    RunIsSafe(garbage, actions);
    SafeDelivered(After(Initial(garbage), actions).value);
  }

  /** An event is dropped only when the spill buffer holds all the events it can. */
  lemma DropsOnlyWhenFull(garbage: Event, actions: seq<Action>, a: Action)
    requires After(Initial(garbage), actions + [a]).Some?
    ensures After(Initial(garbage), actions).Some?
    ensures var s, t := After(Initial(garbage), actions).value, After(Initial(garbage), actions + [a]).value;
            t.dropped != s.dropped <==> a.Spill? && |s.queue| == QUEUE_SIZE
  {
    assert (actions + [a])[..|actions|] == actions;
    RunIsSafe(garbage, actions);
    var s := After(Initial(garbage), actions).value;
    if a.Spill? && |s.queue| == QUEUE_SIZE {
      assert (s.dropped + multiset{s.producer.e})[s.producer.e] == s.dropped[s.producer.e] + 1;
    }
  }

  // ------------------------------------------------------------------
  // The whole operations are the uninterrupted runs of these steps
  // ------------------------------------------------------------------

  function BoxOf(s: State): Box {
    Box(s.slot, s.present, s.queue)
  }

  lemma AfterSnoc(s: State, actions: seq<Action>, t: State, a: Action)
    requires After(s, actions) == Some(t) && Enabled(t, a)
    ensures After(s, actions + [a]) == Some(Do(t, a))
  {
    assert (actions + [a])[..|actions|] == actions;
  }

  const WRITE: seq<Action> := [WriteField(Row)] + [WriteField(Col)] + [WriteField(Down)] + [Publish]

  /** Writing the slot, continuing any run. */
  lemma WriteSteps(s: State, actions: seq<Action>, t: State)
    requires After(s, actions) == Some(t) && t.producer.Writing? && t.producer.left == FIELDS
    ensures After(s, actions + WRITE) ==
            Some(t.(slot := t.producer.e, present := true, producer := Scanning))
  {
    var a := Do(t, WriteField(Row));
    var b := Do(a, WriteField(Col));
    var c := Do(b, WriteField(Down));
    AfterSnoc(s, actions, t, WriteField(Row));
    AfterSnoc(s, actions + [WriteField(Row)], a, WriteField(Col));
    AfterSnoc(s, actions + [WriteField(Row)] + [WriteField(Col)], b, WriteField(Down));
    assert c.producer.left == {} && c.slot == t.producer.e;
    AfterSnoc(s, actions + [WriteField(Row)] + [WriteField(Col)] + [WriteField(Down)], c, Publish);
    assert actions + WRITE ==
           actions + [WriteField(Row)] + [WriteField(Col)] + [WriteField(Down)] + [Publish];
  }

  /** event_queue without interruption is Offer. */
  lemma OfferIsUninterrupted(s: State, e: Event)
    requires s.producer.Scanning?
    ensures var r := After(s, [Generate(e)] + (if s.present then [Spill] else WRITE));
            r.Some? && r.value.producer.Scanning? && BoxOf(r.value) == Offer(BoxOf(s), e)
  {
    assert [] + [Generate(e)] == [Generate(e)];
    AfterSnoc(s, [], s, Generate(e));
    var t := Do(s, Generate(e));
    if s.present {
      AfterSnoc(s, [Generate(e)], t, Spill);
    } else {
      WriteSteps(s, [Generate(e)], t);
    }
  }

  /** queue_handle without interruption is Refill. */
  lemma RefillIsUninterrupted(s: State)
    requires s.producer.Scanning?
    ensures var r := After(s, [TakeBack] + (if s.present || s.queue == [] then [] else WRITE));
            r.Some? && r.value.producer.Scanning? && BoxOf(r.value) == Refill(BoxOf(s))
  {
    assert [] + [TakeBack] == [TakeBack] && [TakeBack] + [] == [TakeBack];
    AfterSnoc(s, [], s, TakeBack);
    if !s.present && s.queue != [] {
      WriteSteps(s, [TakeBack], Do(s, TakeBack));
    }
  }

  // ------------------------------------------------------------------
  // Nothing stays behind
  // ------------------------------------------------------------------

  /** What the consumer gets when it reads whenever it can and the producer only refills. */
  function Drain(b: Box): seq<Event>
    decreases |b.queue|, b.present
  {
    if b.present then [b.slot] + Drain(b.(present := false))
    else if b.queue == [] then []
    else
      var r := Refill(b);
      if r.present && |r.queue| < |b.queue| then [r.slot] + Drain(r.(present := false)) else []
  }

  function Backwards(events: seq<Event>): seq<Event> {
    if events == [] then [] else [events[|events| - 1]] + Backwards(events[..|events| - 1])
  }

  /** Everything is delivered: the slot first, then the spilled events, the newest first. */
  lemma {:induction false} DrainIsAll(b: Box)
    ensures Drain(b) == (if b.present then [b.slot] else []) + Backwards(b.queue)
    decreases |b.queue|, b.present
  {
    if b.present {
      DrainIsAll(b.(present := false));
    } else if b.queue != [] {
      DrainIsAll(Refill(b).(present := false));
    }
  }

  /** An event offered is the next to be delivered after what is in the slot, unless it is dropped. */
  lemma OfferedIsDelivered(b: Box, e: Event)
    requires !b.present ==> b.queue == []
    ensures Drain(Offer(b, e)) ==
            if !b.present then [e]
            else if |b.queue| < 30 then [b.slot, e] + Drain(b)[1..]
            else Drain(b)
  {
    DrainIsAll(b);
    DrainIsAll(Offer(b, e));
    assert (b.queue + [e])[..|b.queue|] == b.queue;
  }
}
