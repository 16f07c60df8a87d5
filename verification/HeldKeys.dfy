/** What the report says about the keys that are held down, across the key modes. */
module HeldKeys {
  import opened Words
  import opened HidReport
  import opened KeyModes

  // ------------------------------------------------------------------
  // Names: what a key is called in the report
  // ------------------------------------------------------------------

  /** The key code that the machine sends for a key; None if it sends nothing under the key's own action. */
  function Code(k: Keyboard, key: byte): Option<byte> {
    if key >= 0xf0 then None
    else
      match k.mode
      case Normal => Some(key)
      case Function => Some(FunctionKey(key))
      case Vim =>
        var plain := !k.shift && !k.ctrl;
        if VimKey(key, k.shift, k.ctrl).Some? then VimKey(key, k.shift, k.ctrl)
        else if plain && (key == KEY_X || key == KEY_D) then Some(KEY_DELETE)
        else if plain && (key == KEY_V || key == KEY_I) then None
        else Some(key)
  }

  predicate TakesSlot(code: byte) {
    code != 0 && !IsModifier(code)
  }

  /** The code under which a key gets into the table, or leaves it; None if it does neither. */
  function Name(k: Keyboard, key: byte): Option<byte> {
    match Code(k, key)
    case Some(code) => if TakesSlot(code) then Some(code) else None
    case None => None
  }

  /** A key that is down, with its name at its press. */
  datatype Held = Held(key: byte, name: Option<byte>)

  /** The name of the last press of `key` that is not released; None also if there is no such press. */
  function PressName(pressed: seq<Held>, key: byte): Option<byte> {
    if pressed == [] then None
    else
      var e := pressed[|pressed| - 1];
      if e.key == key then e.name else PressName(pressed[..|pressed| - 1], key)
  }

  function Without(pressed: seq<Held>, key: byte): seq<Held> {
    if pressed == [] then []
    else
      var front, e := pressed[..|pressed| - 1], pressed[|pressed| - 1];
      if e.key == key then front else Without(front, key) + [e]
  }

  function Press(k: Keyboard, pressed: seq<Held>, c: Call): seq<Held> {
    match c.action
    case NoAction => pressed
    case Down => pressed + [Held(c.key, Name(k, c.key))]
    case Up => Without(pressed, c.key)
  }

  /** The presses not yet released, oldest first. */
  function Pressed(inputs: seq<Call>): seq<Held> {
    if inputs == [] then []
    else
      var front, c := inputs[..|inputs| - 1], inputs[|inputs| - 1];
      Press(InputAll(front), Pressed(front), c)
  }

  function NameSet(e: Held): multiset<byte> {
    match e.name
    case Some(x) => multiset{x}
    case None => multiset{}
  }

  function Names(pressed: seq<Held>): multiset<byte> {
    if pressed == [] then multiset{} else Names(pressed[..|pressed| - 1]) + NameSet(pressed[|pressed| - 1])
  }

  /** The keys in the report table. */
  function Table(k: Keyboard): multiset<byte> {
    Keys(SendAll(k.calls).slots)
  }

  // ------------------------------------------------------------------
  // One input
  // ------------------------------------------------------------------

  lemma SayTable(k: Keyboard, action: Act, code: byte)
    ensures Table(Say(k, action, code)) ==
            if action == NoAction || !TakesSlot(code) then Table(k)
            else if action == Up then Table(k) - multiset{code}
            else if |Table(k)| < SLOTS then Table(k) + multiset{code}
            else Table(k)
  {
    SendSnoc(k.calls, Call(action, code));
    TableIsCapped(k.calls);
    SendKeys(SendAll(k.calls), Call(action, code));
  }

  /** What an event of a key named `name` does to the table. */
  function Effect(table: multiset<byte>, action: Act, name: Option<byte>): multiset<byte> {
    if action == NoAction || name.None? then table
    else if action == Up then table - multiset{name.value}
    else if |table| < SLOTS then table + multiset{name.value}
    else table
  }

  lemma SayEffect(k: Keyboard, action: Act, code: byte)
    ensures Table(Say(k, action, code)) == Effect(Table(k), action, if TakesSlot(code) then Some(code) else None)
  {
    SayTable(k, action, code);
  }

  predicate SameCalls(a: Keyboard, b: Keyboard) {
    a.calls == b.calls
  }

  lemma SameCallsTable(a: Keyboard, b: Keyboard)
    requires SameCalls(a, b)
    ensures Table(a) == Table(b)
  {
  }

  lemma ShiftTable(k: Keyboard, action: Act)
    ensures Table(Say(k, action, SHIFT_LEFT)) == Table(k)
  {
    SayEffect(k, action, SHIFT_LEFT);
  }

  /** The latch only concerns a modifier. */
  lemma UnlatchTable(k: Keyboard)
    ensures Table(Unlatch(k)) == Table(k)
  {
    ShiftTable(k, Up);
    SameCallsTable(Unlatch(k), if k.shiftDown then Say(k, Up, SHIFT_LEFT) else k);
  }

  lemma LatchTable(k: Keyboard, action: Act)
    ensures Table(Latch(k, action)) == Table(k)
  {
    UnlatchTable(k);
    ShiftTable(k, Down);
    SameCallsTable(Latch(k, action),
                   if action != Down then k else if k.shiftDown then Unlatch(k) else Say(k, Down, SHIFT_LEFT));
  }

  /** VIM mode sends a key's code, if it has one and is not swallowed, and at most works the latch. */
  lemma VimSends(k: Keyboard, action: Act, key: byte) returns (r: Keyboard)
    requires k.mode == Vim && key < 0xf0
    ensures r == k || (Code(k, key).Some? && r == Say(k, action, Code(k, key).value))
    ensures r == k ==> Name(k, key).None?
    ensures var v := VimInput(k, action, key);
            SameCalls(v, r) || SameCalls(v, Unlatch(r)) || SameCalls(v, Latch(r, action))
  {
    var code := Code(k, key);
    r := if code.None? || key in {SHIFT_LEFT, SHIFT_RIGHT, CONTROL_LEFT, CONTROL_RIGHT} then k
         else Say(k, action, code.value);
  }

  lemma VimTable(k: Keyboard, action: Act, key: byte)
    requires k.mode == Vim && key < 0xf0
    ensures Table(VimInput(k, action, key)) == Effect(Table(k), action, Name(k, key))
  {
    var v := VimInput(k, action, key);
    var r := VimSends(k, action, key);
    UnlatchTable(r);
    LatchTable(r, action);
    assert Table(v) == Table(r) by {
      if SameCalls(v, r) {
        SameCallsTable(v, r);
      } else if SameCalls(v, Unlatch(r)) {
        SameCallsTable(v, Unlatch(r));
      } else {
        SameCallsTable(v, Latch(r, action));
      }
    }
    if r != k {
      SayEffect(k, action, Code(k, key).value);
    }
  }

  lemma TrackedName(k: Keyboard, action: Act, key: byte)
    ensures var t := TrackModifiers(k, action, key);
            SameCalls(t, k) && t.mode == k.mode && Name(t, key) == Name(k, key)
  {
  }

  lemma PlainModeTable(k: Keyboard, c: Call)
    requires k.mode != Vim
    ensures Table(Input(k, c.action, c.key)) == Effect(Table(k), c.action, Name(k, c.key))
  {
    var t, i := TrackModifiers(k, c.action, c.key), Input(k, c.action, c.key);
    TrackedName(k, c.action, c.key);
    SameCallsTable(t, k);
    if c.key < 0xf0 {
      SayEffect(t, c.action, Code(k, c.key).value);
      assert i == Say(t, c.action, Code(k, c.key).value);
    } else {
      SameCallsTable(i, k);
    }
  }

  /** Whatever the mode, an input acts on the table under the key's present name only. */
  lemma InputTable(k: Keyboard, c: Call)
    ensures Table(Input(k, c.action, c.key)) == Effect(Table(k), c.action, Name(k, c.key))
  {
    if k.mode != Vim {
      PlainModeTable(k, c);
    } else {
      var t := TrackModifiers(k, c.action, c.key);
      TrackedName(k, c.action, c.key);
      SameCallsTable(t, k);
      if c.key < 0xf0 {
        VimTable(t, c.action, c.key);
      }
    }
  }

  // ------------------------------------------------------------------
  // The table is what is held, exactly as long as names match
  // ------------------------------------------------------------------

  /**
   * Before the input: a named press finds a free slot, and a release has the name of its press,
   * or had none at its press and now has one that nothing else in the report has.
   */
  predicate Matches(k: Keyboard, pressed: seq<Held>, c: Call) {
    var now := Name(k, c.key);
    match c.action
    case NoAction => true
    case Down => now.Some? ==> |Names(pressed)| < SLOTS
    case Up =>
      var atPress := PressName(pressed, c.key);
      atPress == now || (atPress.None? && now.value !in Names(pressed))
  }

  lemma {:induction false} NamesWithout(pressed: seq<Held>, key: byte)
    ensures var x := PressName(pressed, key);
            && Names(Without(pressed, key)) == Names(pressed) - NameSet(Held(key, x))
            && (x.Some? ==> x.value in Names(pressed))
  {
    if pressed != [] && pressed[|pressed| - 1].key != key {
      var front, e := pressed[..|pressed| - 1], pressed[|pressed| - 1];
      NamesWithout(front, key);
      NamesSnoc(Without(front, key), e);
    }
  }

  lemma NamesSnoc(pressed: seq<Held>, e: Held)
    ensures Names(pressed + [e]) == Names(pressed) + NameSet(e)
  {
    assert (pressed + [e])[..|pressed|] == pressed;
  }

  /** The names held after the input, from those held before. */
  lemma PressNames(k: Keyboard, pressed: seq<Held>, c: Call)
    ensures Names(Press(k, pressed, c)) ==
            match c.action
            case NoAction => Names(pressed)
            case Down => Names(pressed) + NameSet(Held(c.key, Name(k, c.key)))
            case Up => Take(Names(pressed), PressName(pressed, c.key))
  {
    NamesSnoc(pressed, Held(c.key, Name(k, c.key)));
    NamesWithout(pressed, c.key);
  }

  lemma MatchStep(k: Keyboard, pressed: seq<Held>, c: Call)
    ensures Effect(Names(pressed), c.action, Name(k, c.key)) == Names(Press(k, pressed, c)) <==>
            Matches(k, pressed, c)
  {
    var held, now := Names(pressed), Name(k, c.key);
    PressNames(k, pressed, c);
    match c.action
    case NoAction =>
    case Down => PressFits(held, now, c.key);
    case Up =>
      NamesWithout(pressed, c.key);
      ReleaseMatches(held, PressName(pressed, c.key), now);
  }

  lemma PressFits(held: multiset<byte>, now: Option<byte>, key: byte)
    ensures Effect(held, Down, now) == held + NameSet(Held(key, now)) <==> now.None? || |held| < SLOTS
  {
    if now.Some? {
      assert (held + multiset{now.value})[now.value] == held[now.value] + 1;
    }
  }

  function Take(held: multiset<byte>, name: Option<byte>): multiset<byte> {
    if name.Some? then held - multiset{name.value} else held
  }

  lemma ReleaseMatches(held: multiset<byte>, x: Option<byte>, y: Option<byte>)
    requires x.Some? ==> x.value in held
    ensures Take(held, x) == Take(held, y) <==> x == y || (x.None? && y.value !in held)
  {
    if x.Some? && x != y {
      assert Take(held, x)[x.value] == held[x.value] - 1;
      assert Take(held, y)[x.value] == held[x.value];
    } else if x.None? && y.Some? {
      assert Take(held, y)[y.value] == if y.value in held then held[y.value] - 1 else 0;
    }
  }

  /** The report table holds the names of the keys that are down. */
  predicate Exact(inputs: seq<Call>) {
    Table(InputAll(inputs)) == Names(Pressed(inputs))
  }

  predicate MatchesAt(inputs: seq<Call>, n: nat)
    requires n < |inputs|
  {
    Matches(InputAll(inputs[..n]), Pressed(inputs[..n]), inputs[n])
  }

  lemma ExactStep(inputs: seq<Call>, n: nat)
    requires n < |inputs| && Exact(inputs[..n])
    ensures Exact(inputs[..n + 1]) <==> MatchesAt(inputs, n)
  {
    var front, c := inputs[..n], inputs[n];
    assert inputs[..n + 1][..n] == front;
    InputTable(InputAll(front), c);
    MatchStep(InputAll(front), Pressed(front), c);
  }

  lemma MatchedStep(inputs: seq<Call>, n: nat)
    requires n < |inputs| && Exact(inputs[..n]) && MatchesAt(inputs, n)
    ensures Exact(inputs[..n + 1])
  {
    ExactStep(inputs, n);
  }

  lemma ExactAtStart()
    ensures Exact([])
  {
    TableIsCapped([]);
  }

  lemma {:induction false} MatchedIsExact(inputs: seq<Call>, n: nat)
    requires n <= |inputs| && forall i | 0 <= i < n :: MatchesAt(inputs, i)
    ensures Exact(inputs[..n])
  {
    if n > 0 {
      MatchedIsExact(inputs, n - 1);
      MatchedStep(inputs, n - 1);
    } else {
      ExactAtStart();
      assert inputs[..0] == [];
    }
  }

  /** In every history: the table is what is held all along, if and only if every input matches. */
  lemma TableIsHeldIff(inputs: seq<Call>)
    ensures (forall n | 0 <= n <= |inputs| :: Exact(inputs[..n])) <==>
            (forall n | 0 <= n < |inputs| :: MatchesAt(inputs, n))
  {
    if forall n | 0 <= n <= |inputs| :: Exact(inputs[..n]) {
      forall n | 0 <= n < |inputs|
        ensures MatchesAt(inputs, n)
      {
        assert Exact(inputs[..n]) && Exact(inputs[..n + 1]);
        ExactStep(inputs, n);
      }
    }
    if forall n | 0 <= n < |inputs| :: MatchesAt(inputs, n) {
      forall n | 0 <= n <= |inputs|
        ensures Exact(inputs[..n])
      {
        MatchedIsExact(inputs, n);
      }
    }
  }

  // ------------------------------------------------------------------
  // Changing mode or modifiers with nothing in the report
  // ------------------------------------------------------------------

  predicate IsDown(pressed: seq<Held>, key: byte) {
    exists e :: e in pressed && e.key == key
  }

  /** A key goes down only when it is up, with a slot left, and up only when it is down. */
  predicate Orderly(k: Keyboard, pressed: seq<Held>, c: Call) {
    match c.action
    case NoAction => true
    case Down => !IsDown(pressed, c.key) && (Name(k, c.key).Some? ==> |Names(pressed)| < SLOTS)
    case Up => IsDown(pressed, c.key)
  }

  /** The modes agree, and in VIM mode the modifiers do. */
  predicate SameNaming(k: Keyboard, l: Keyboard) {
    k.mode == l.mode && (k.mode == Vim ==> k.shift == l.shift && k.ctrl == l.ctrl)
  }

  /** When the input changes how keys are named, no named key is down. */
  predicate Calm(k: Keyboard, pressed: seq<Held>, c: Call) {
    SameNaming(k, Input(k, c.action, c.key)) || Names(pressed) == multiset{}
  }

  predicate CalmAt(inputs: seq<Call>, n: nat)
    requires n < |inputs|
  {
    var k, pressed := InputAll(inputs[..n]), Pressed(inputs[..n]);
    Orderly(k, pressed, inputs[n]) && Calm(k, pressed, inputs[n])
  }

  predicate NameStays(k: Keyboard, e: Held) {
    match e.name
    case Some(_) => Name(k, e.key) == e.name
    case None => Name(k, e.key).None? || (Name(k, e.key) == Some(e.key) && e.key in {KEY_V, KEY_I})
  }

  predicate Distinct(pressed: seq<Held>) {
    forall i, j | 0 <= i < j < |pressed| :: pressed[i].key != pressed[j].key
  }

  predicate Settled(k: Keyboard, pressed: seq<Held>) {
    Distinct(pressed) && forall e | e in pressed :: NameStays(k, e)
  }

  /** Only V and I are swallowed in one state and named in another, and then by themselves. */
  lemma SwallowedOrOwn(k: Keyboard, l: Keyboard, e: Held)
    requires e.name.None? && NameStays(k, e)
    ensures NameStays(l, e)
  {
  }

  /** No other key has the name V or I. */
  lemma OwnName(k: Keyboard, key: byte)
    ensures Name(k, key) == Some(KEY_V) ==> key == KEY_V
    ensures Name(k, key) == Some(KEY_I) ==> key == KEY_I
  {
  }

  lemma SameNames(k: Keyboard, l: Keyboard, key: byte)
    requires SameNaming(k, l)
    ensures Name(k, key) == Name(l, key)
  {
  }

  /** No key that has a name changes the naming. */
  lemma NamedKeepsNaming(k: Keyboard, action: Act, key: byte)
    requires Name(k, key).Some?
    ensures SameNaming(k, Input(k, action, key))
  {
  }

  lemma {:induction false} NamesMember(pressed: seq<Held>, x: byte)
    ensures x in Names(pressed) <==> exists e :: e in pressed && e.name == Some(x)
  {
    if pressed != [] {
      var front, e := pressed[..|pressed| - 1], pressed[|pressed| - 1];
      NamesMember(front, x);
      assert pressed == front + [e];
    }
  }

  lemma {:induction false} PressNameIn(pressed: seq<Held>, key: byte)
    requires IsDown(pressed, key)
    ensures Held(key, PressName(pressed, key)) in pressed
  {
    var front, e := pressed[..|pressed| - 1], pressed[|pressed| - 1];
    assert pressed == front + [e];
    if e.key != key {
      PressNameIn(front, key);
    }
  }

  lemma {:induction false} WithoutKeeps(pressed: seq<Held>, key: byte)
    ensures forall e | e in Without(pressed, key) :: e in pressed
    ensures forall e | e in pressed && e.key != key :: e in Without(pressed, key)
    ensures Distinct(pressed) ==> Distinct(Without(pressed, key))
  {
    if pressed != [] {
      var front, e := pressed[..|pressed| - 1], pressed[|pressed| - 1];
      assert pressed == front + [e];
      WithoutKeeps(front, key);
      if Distinct(pressed) {
        assert Distinct(front);
        forall f | f in Without(front, key)
          ensures f.key != e.key
        {
          assert f in front;
        }
      }
    }
  }

  lemma SettledMatches(k: Keyboard, pressed: seq<Held>, c: Call)
    requires Settled(k, pressed) && Orderly(k, pressed, c)
    ensures Matches(k, pressed, c)
  {
    if c.action == Up {
      var mine := Held(c.key, PressName(pressed, c.key));
      PressNameIn(pressed, c.key);
      assert NameStays(k, mine);
      if mine.name.None? && Name(k, c.key).Some? && c.key in Names(pressed) {
        NamesMember(pressed, c.key);
        var e :| e in pressed && e.name == Some(c.key);
        assert NameStays(k, e);
        OwnName(k, e.key);
      }
    }
  }

  lemma SettledStep(k: Keyboard, pressed: seq<Held>, c: Call)
    requires Settled(k, pressed) && Orderly(k, pressed, c) && Calm(k, pressed, c)
    ensures Settled(Input(k, c.action, c.key), Press(k, pressed, c))
  {
    var l, now := Input(k, c.action, c.key), Press(k, pressed, c);
    WithoutKeeps(pressed, c.key);
    forall e | e in now
      ensures NameStays(l, e)
    {
      if e in pressed {
        StaysOn(k, pressed, c, e);
      } else if e.name.Some? {
        NamedKeepsNaming(k, c.action, c.key);
        SameNames(k, l, c.key);
      } else {
        SwallowedOrOwn(k, l, e);
      }
    }
    if c.action == Down {
      forall i | 0 <= i < |pressed|
        ensures pressed[i].key != c.key
      {
        assert pressed[i] in pressed;
      }
    }
  }

  lemma StaysOn(k: Keyboard, pressed: seq<Held>, c: Call, e: Held)
    requires Settled(k, pressed) && Calm(k, pressed, c) && e in pressed
    ensures NameStays(Input(k, c.action, c.key), e)
  {
    var l := Input(k, c.action, c.key);
    assert NameStays(k, e);
    if SameNaming(k, l) {
      SameNames(k, l, e.key);
    } else {
      if e.name.Some? {
        NamesMember(pressed, e.name.value);
      }
      SwallowedOrOwn(k, l, e);
    }
  }

  lemma {:induction false} CalmIsSettled(inputs: seq<Call>, n: nat)
    requires n <= |inputs| && forall i | 0 <= i < n :: CalmAt(inputs, i)
    ensures Settled(InputAll(inputs[..n]), Pressed(inputs[..n]))
  {
    if n > 0 {
      CalmIsSettled(inputs, n - 1);
      var front, c := inputs[..n - 1], inputs[n - 1];
      assert CalmAt(inputs, n - 1) && inputs[..n][..n - 1] == front;
      SettledStep(InputAll(front), Pressed(front), c);
    }
  }

  /** If mode and modifiers change only while no named key is down, no key is ever stranded. */
  lemma CalmIsExact(inputs: seq<Call>, n: nat)
    requires n <= |inputs| && forall i | 0 <= i < |inputs| :: CalmAt(inputs, i)
    ensures Exact(inputs[..n])
  {
    forall i | 0 <= i < n
      ensures MatchesAt(inputs, i)
    {
      assert CalmAt(inputs, i);
      CalmIsSettled(inputs, i);
      SettledMatches(InputAll(inputs[..i]), Pressed(inputs[..i]), inputs[i]);
    }
    MatchedIsExact(inputs, n);
  }
}
