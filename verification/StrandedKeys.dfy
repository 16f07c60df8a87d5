/** Histories after which every key is up, and the report is not empty. */
module StrandedKeys {
  import opened Words
  import opened HidReport
  import opened KeyModes
  import opened HeldKeys
  import opened HeldModifiers

  /** How keys are named (neither control key nor latch in play), what is down, and what the report holds. */
  datatype Sight = Sight(mode: Mode, shift: bool, pressed: seq<Held>, table: multiset<byte>, leftShift: bool)

  function KeysOf(s: Sight): Keyboard {
    Keyboard(s.mode, s.shift, false, false, [])
  }

  predicate Sees(inputs: seq<Call>, s: Sight) {
    && SameKeys(InputAll(inputs), KeysOf(s)) && Pressed(inputs) == s.pressed
    && Table(InputAll(inputs)) == s.table && BitSet(InputAll(inputs), LEFT_SHIFT_BIT) == s.leftShift
  }

  predicate SameKeys(k: Keyboard, l: Keyboard) {
    k.mode == l.mode && k.shift == l.shift && k.ctrl == l.ctrl && k.shiftDown == l.shiftDown
  }

  function See(s: Sight, c: Call): Sight {
    var k := KeysOf(s);
    var l := Input(k, c.action, c.key);
    Sight(l.mode, l.shift, Press(k, s.pressed, c), Effect(s.table, c.action, Name(k, c.key)),
          if c.key == SHIFT_LEFT && c.action != NoAction && k.mode != Vim then c.action == Down else s.leftShift)
  }

  /** The calls already made do not matter. */
  lemma CallsDoNotMatter(k: Keyboard, l: Keyboard, c: Call)
    requires SameKeys(k, l) && !WorksLatch(k, c)
    ensures Name(k, c.key) == Name(l, c.key)
    ensures SameKeys(Input(k, c.action, c.key), Input(l, c.action, c.key))
  {
    SameNames(k, l, c.key);
    PlainInputKeys(k, c);
    PlainInputKeys(l, c);
  }

  lemma PlainInputKeys(k: Keyboard, c: Call)
    requires !WorksLatch(k, c)
    ensures var l, t := Input(k, c.action, c.key), TrackModifiers(k, c.action, c.key);
            && l.shift == t.shift && l.ctrl == t.ctrl && l.shiftDown == k.shiftDown
            && l.mode == if c.action != Down || k.mode == Vim then k.mode
                         else if c.key == VIM_KEY then (if k.mode == Normal then Vim else k.mode)
                         else if c.key == FUNCTION_KEY then (if k.mode == Normal then Function else Normal)
                         else k.mode
  {
  }

  predicate Simple(s: Sight, c: Call) {
    !WorksLatch(KeysOf(s), c) && c.key !in {CONTROL_LEFT, CONTROL_RIGHT}
  }

  lemma ControlStaysUp(s: Sight, c: Call)
    requires Simple(s, c)
    ensures !Input(KeysOf(s), c.action, c.key).ctrl && !Input(KeysOf(s), c.action, c.key).shiftDown
  {
  }

  lemma Snoc(inputs: seq<Call>, c: Call)
    ensures InputAll(inputs + [c]) == Input(InputAll(inputs), c.action, c.key)
    ensures Pressed(inputs + [c]) == Press(InputAll(inputs), Pressed(inputs), c)
  {
    assert (inputs + [c])[..|inputs|] == inputs;
  }

  lemma PressByName(k: Keyboard, l: Keyboard, pressed: seq<Held>, c: Call)
    requires Name(k, c.key) == Name(l, c.key)
    ensures Press(k, pressed, c) == Press(l, pressed, c)
  {
  }

  lemma Feed(inputs: seq<Call>, c: Call, s: Sight, t: Sight)
    requires Sees(inputs, s) && Simple(s, c) && See(s, c) == t
    ensures Sees(inputs + [c], t)
  {
    var k := InputAll(inputs);
    CallsDoNotMatter(k, KeysOf(s), c);
    ControlStaysUp(s, c);
    PressByName(k, KeysOf(s), s.pressed, c);
    Snoc(inputs, c);
    InputTable(k, c);
    PlainInputBit(k, c, LEFT_SHIFT_BIT);
  }

  const AT_START := Sight(Normal, false, [], multiset{}, false)

  lemma StartSight()
    ensures Sees([], AT_START)
  {
    TableIsCapped([]);
    ModifierIsLastEvent([], LEFT_SHIFT_BIT);
  }

  lemma SeePlain(s: Sight, c: Call)
    requires c.key < 0xf0 && !IsModifier(c.key) && !WorksLatch(KeysOf(s), c)
    ensures Simple(s, c)
    ensures See(s, c) == s.(pressed := Press(KeysOf(s), s.pressed, c),
                            table := Effect(s.table, c.action, Name(KeysOf(s), c.key)))
  {
    PlainInputKeys(KeysOf(s), c);
  }

  lemma SeeVim(s: Sight, action: Act)
    requires s.mode == Normal || action == Up
    ensures var c := Call(action, VIM_KEY);
            && Simple(s, c)
            && See(s, c) == s.(mode := if action == Down then Vim else s.mode,
                               pressed := Press(KeysOf(s), s.pressed, c))
  {
    PlainInputKeys(KeysOf(s), Call(action, VIM_KEY));
  }

  lemma SeeShift(s: Sight, action: Act)
    requires action != NoAction
    ensures var c := Call(action, SHIFT_LEFT);
            && Simple(s, c)
            && See(s, c) == s.(shift := action == Down, pressed := Press(KeysOf(s), s.pressed, c),
                               leftShift := if s.mode != Vim then action == Down else s.leftShift)
  {
    PlainInputKeys(KeysOf(s), Call(action, SHIFT_LEFT));
  }

  lemma FeedPlain(inputs: seq<Call>, c: Call, s: Sight, t: Sight)
    requires Sees(inputs, s) && c.key < 0xf0 && !IsModifier(c.key) && !WorksLatch(KeysOf(s), c)
    requires t == s.(pressed := Press(KeysOf(s), s.pressed, c),
                     table := Effect(s.table, c.action, Name(KeysOf(s), c.key)))
    ensures Sees(inputs + [c], t)
  {
    SeePlain(s, c);
    Feed(inputs, c, s, t);
  }

  lemma FeedVim(inputs: seq<Call>, action: Act, s: Sight, t: Sight)
    requires Sees(inputs, s) && (s.mode == Normal || action == Up)
    requires t == s.(mode := if action == Down then Vim else s.mode,
                     pressed := Press(KeysOf(s), s.pressed, Call(action, VIM_KEY)))
    ensures Sees(inputs + [Call(action, VIM_KEY)], t)
  {
    SeeVim(s, action);
    Feed(inputs, Call(action, VIM_KEY), s, t);
  }

  lemma FeedShift(inputs: seq<Call>, action: Act, s: Sight, t: Sight)
    requires Sees(inputs, s) && action != NoAction
    requires t == s.(shift := action == Down, pressed := Press(KeysOf(s), s.pressed, Call(action, SHIFT_LEFT)),
                     leftShift := if s.mode != Vim then action == Down else s.leftShift)
    ensures Sees(inputs + [Call(action, SHIFT_LEFT)], t)
  {
    SeeShift(s, action);
    Feed(inputs, Call(action, SHIFT_LEFT), s, t);
  }

  const H_HELD := Sight(Normal, false, [Held(KEY_H, Some(KEY_H))], multiset{KEY_H}, false)
  const H_IN_VIM := Sight(Vim, false, [Held(KEY_H, Some(KEY_H))], multiset{KEY_H}, false)

  lemma ReleaseLast(pressed: seq<Held>, e: Held)
    ensures Without(pressed + [e], e.key) == pressed
  {
  }

  lemma PressesVim(inputs: seq<Call>, s: Sight)
    requires Sees(inputs, s) && s.mode == Normal
    ensures Sees(inputs + [Call(Down, VIM_KEY)], s.(mode := Vim, pressed := s.pressed + [Held(VIM_KEY, None)]))
  {
    FeedVim(inputs, Down, s, s.(mode := Vim, pressed := s.pressed + [Held(VIM_KEY, None)]));
  }

  lemma ReleasesVim(inputs: seq<Call>, s: Sight, pressed: seq<Held>)
    requires Sees(inputs, s) && s.pressed == pressed + [Held(VIM_KEY, None)]
    ensures Sees(inputs + [Call(Up, VIM_KEY)], s.(pressed := pressed))
  {
    ReleaseLast(pressed, Held(VIM_KEY, None));
    FeedVim(inputs, Up, s, s.(pressed := pressed));
  }

  /** The VIM key pressed and released. */
  lemma TapsVim(inputs: seq<Call>, s: Sight)
    requires Sees(inputs, s) && s.mode == Normal
    ensures Sees(inputs + [Call(Down, VIM_KEY)] + [Call(Up, VIM_KEY)], s.(mode := Vim))
  {
    PressesVim(inputs, s);
    ReleasesVim(inputs + [Call(Down, VIM_KEY)],
                s.(mode := Vim, pressed := s.pressed + [Held(VIM_KEY, None)]), s.pressed);
  }

  /** H pressed in NORMAL mode and released in VIM mode: every key is up, and H is still in the report. */
  lemma ModeChangeStrandsKey()
    ensures Sees([] + [Call(Down, KEY_H)] + [Call(Down, VIM_KEY)] + [Call(Up, VIM_KEY)] + [Call(Up, KEY_H)],
                 Sight(Vim, false, [], multiset{KEY_H}, false))
  {
    StartSight();
    FeedPlain([], Call(Down, KEY_H), AT_START, H_HELD);
    var h := [] + [Call(Down, KEY_H)];
    TapsVim(h, H_HELD);
    FeedPlain(h + [Call(Down, VIM_KEY)] + [Call(Up, VIM_KEY)], Call(Up, KEY_H), H_IN_VIM, H_IN_VIM.(pressed := []));
  }

  const IN_VIM := Sight(Vim, false, [], multiset{}, false)
  const SHIFT_HELD := Held(SHIFT_LEFT, None)
  const END_HELD := Held(KEY_4, Some(KEY_END))
  const FOUR_SHIFTED := Sight(Vim, true, [SHIFT_HELD, END_HELD], multiset{KEY_END}, false)

  lemma PressesShift(inputs: seq<Call>)
    requires Sees(inputs, IN_VIM)
    ensures Sees(inputs + [Call(Down, SHIFT_LEFT)], IN_VIM.(shift := true, pressed := [SHIFT_HELD]))
  {
    FeedShift(inputs, Down, IN_VIM, IN_VIM.(shift := true, pressed := [SHIFT_HELD]));
  }

  /** With shift the 4 key is named END. */
  lemma PressesFour(inputs: seq<Call>)
    requires Sees(inputs, IN_VIM.(shift := true, pressed := [SHIFT_HELD]))
    ensures Sees(inputs + [Call(Down, KEY_4)], FOUR_SHIFTED)
  {
    FeedPlain(inputs, Call(Down, KEY_4), IN_VIM.(shift := true, pressed := [SHIFT_HELD]), FOUR_SHIFTED);
  }

  lemma ReleaseFirst(e: Held, f: Held)
    requires e.key != f.key
    ensures Without([e, f], e.key) == [f]
  {
    assert [e, f][..1] == [e] && [e][..0] == [];
  }

  lemma ReleasesShift(inputs: seq<Call>)
    requires Sees(inputs, FOUR_SHIFTED)
    ensures Sees(inputs + [Call(Up, SHIFT_LEFT)], FOUR_SHIFTED.(shift := false, pressed := [END_HELD]))
  {
    ReleaseFirst(SHIFT_HELD, END_HELD);
    FeedShift(inputs, Up, FOUR_SHIFTED, FOUR_SHIFTED.(shift := false, pressed := [END_HELD]));
  }

  /** Without shift it is named 4, which is not in the report. */
  lemma ReleasesFour(inputs: seq<Call>)
    requires Sees(inputs, FOUR_SHIFTED.(shift := false, pressed := [END_HELD]))
    ensures Sees(inputs + [Call(Up, KEY_4)], FOUR_SHIFTED.(shift := false, pressed := []))
  {
    UnshiftedFour();
    FeedPlain(inputs, Call(Up, KEY_4), FOUR_SHIFTED.(shift := false, pressed := [END_HELD]),
              FOUR_SHIFTED.(shift := false, pressed := []));
  }

  lemma UnshiftedFour()
    ensures var k := KeysOf(FOUR_SHIFTED.(shift := false, pressed := [END_HELD]));
            && Name(k, KEY_4) == Some(KEY_4) && !WorksLatch(k, Call(Up, KEY_4))
            && Press(k, [END_HELD], Call(Up, KEY_4)) == []
            && Effect(multiset{KEY_END}, Up, Some(KEY_4)) == multiset{KEY_END}
  {
  }

  /** The mode stays: 4 pressed with shift and released without; every key is up, and END is still in the report. */
  lemma ShiftReleaseStrandsKey()
    ensures Sees([] + [Call(Down, VIM_KEY)] + [Call(Up, VIM_KEY)] + [Call(Down, SHIFT_LEFT)] + [Call(Down, KEY_4)]
                 + [Call(Up, SHIFT_LEFT)] + [Call(Up, KEY_4)],
                 Sight(Vim, false, [], multiset{KEY_END}, false))
  {
    StartSight();
    TapsVim([], AT_START);
    var h := [] + [Call(Down, VIM_KEY)] + [Call(Up, VIM_KEY)];
    PressesShift(h);
    PressesFour(h + [Call(Down, SHIFT_LEFT)]);
    ReleasesShift(h + [Call(Down, SHIFT_LEFT)] + [Call(Down, KEY_4)]);
    ReleasesFour(h + [Call(Down, SHIFT_LEFT)] + [Call(Down, KEY_4)] + [Call(Up, SHIFT_LEFT)]);
  }

  /** Left shift pressed in NORMAL mode and released in VIM mode: every key is up, and its bit is still set. */
  lemma ModeChangeStrandsShift()
    ensures Sees([] + [Call(Down, SHIFT_LEFT)] + [Call(Down, VIM_KEY)] + [Call(Up, VIM_KEY)] + [Call(Up, SHIFT_LEFT)],
                 Sight(Vim, false, [], multiset{}, true))
  {
    var held := Sight(Normal, true, [SHIFT_HELD], multiset{}, true);
    StartSight();
    FeedShift([], Down, AT_START, held);
    var h := [] + [Call(Down, SHIFT_LEFT)];
    TapsVim(h, held);
    FeedShift(h + [Call(Down, VIM_KEY)] + [Call(Up, VIM_KEY)], Up, held.(mode := Vim),
              Sight(Vim, false, [], multiset{}, true));
  }
}
