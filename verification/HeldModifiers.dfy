/** What the modifier byte says about the modifier keys that are held down, across the key modes. */
module HeldModifiers {
  import opened Words
  import opened HidReport
  import opened KeyModes
  import opened HeldKeys

  function ModifierCode(b: nat): byte
    requires b < 8
  {
    0xE0 + b
  }

  function BitSet(k: Keyboard, b: nat): bool
    requires b < 8
  {
    HasBit(SendAll(k.calls).modifiers, b)
  }

  /** The modifiers that VIM mode keeps to itself. */
  predicate VimOwn(key: byte) {
    key in {SHIFT_LEFT, SHIFT_RIGHT, CONTROL_LEFT, CONTROL_RIGHT}
  }

  predicate Swallows(k: Keyboard, key: byte) {
    k.mode == Vim && VimOwn(key)
  }

  function Forward(k: Keyboard, held: bool, c: Call, b: nat): bool
    requires b < 8
  {
    if c.key != ModifierCode(b) || c.action == NoAction then held
    else if c.action == Up then false
    else held || !Swallows(k, c.key)
  }

  /** Modifier `b` is down, from a press that was sent on. */
  predicate Forwarded(inputs: seq<Call>, b: nat)
    requires b < 8
  {
    inputs != [] &&
    (var front := inputs[..|inputs| - 1];
     Forward(InputAll(front), Forwarded(front, b), inputs[|inputs| - 1], b))
  }

  predicate Latched(k: Keyboard, b: nat)
    requires b < 8
  {
    ModifierCode(b) == SHIFT_LEFT && k.shiftDown
  }

  predicate BitIsHeld(k: Keyboard, held: bool, b: nat)
    requires b < 8
  {
    BitSet(k, b) <==> held || Latched(k, b)
  }

  /** An input on which VIM mode works the latch: V toggles it; X, D and I let it go. */
  predicate WorksLatch(k: Keyboard, c: Call) {
    && k.mode == Vim && !k.shift && !k.ctrl
    && (c.key in {KEY_X, KEY_D, KEY_I} || (c.key == KEY_V && c.action == Down))
  }

  /**
   * Before the input: a modifier that was sent on is not released in VIM mode (unless the latch holds it anyway),
   * and a left shift that was sent on is not let go by the latch.
   */
  predicate ModifierMatches(k: Keyboard, held: bool, c: Call, b: nat)
    requires b < 8
  {
    held ==>
      && !(c.key == ModifierCode(b) && c.action == Up && Swallows(k, c.key) && !Latched(k, b))
      && !(Latched(k, b) && WorksLatch(k, c))
  }

  lemma SayBitOf(k: Keyboard, action: Act, code: byte, b: nat)
    requires b < 8
    ensures BitSet(Say(k, action, code), b) ==
            if action != NoAction && code == ModifierCode(b) then action == Down else BitSet(k, b)
  {
    SendSnoc(k.calls, Call(action, code));
    SendBit(SendAll(k.calls), Call(action, code), b);
  }

  lemma SameCallsBit(k: Keyboard, l: Keyboard, b: nat)
    requires b < 8 && SameCalls(k, l)
    ensures BitSet(k, b) == BitSet(l, b)
  {
  }

  lemma UnlatchBit(k: Keyboard, b: nat)
    requires b < 8
    ensures BitSet(Unlatch(k), b) == (BitSet(k, b) && !Latched(k, b)) && !Unlatch(k).shiftDown
  {
    SayBitOf(k, Up, SHIFT_LEFT, b);
    SameCallsBit(Unlatch(k), if k.shiftDown then Say(k, Up, SHIFT_LEFT) else k, b);
  }

  lemma LatchBit(k: Keyboard, b: nat)
    requires b < 8 && !k.shiftDown
    ensures BitSet(Latch(k, Down), b) == (BitSet(k, b) || Latched(Latch(k, Down), b)) && Latch(k, Down).shiftDown
  {
    SayBitOf(k, Down, SHIFT_LEFT, b);
    SameCallsBit(Latch(k, Down), Say(k, Down, SHIFT_LEFT), b);
  }

  lemma CodeOfModifier(k: Keyboard, key: byte, b: nat)
    requires b < 8
    ensures Code(k, key) == Some(ModifierCode(b)) <==> key == ModifierCode(b)
  {
  }

  /** What an input sends when it does not work the latch. */
  function Sends(k: Keyboard, c: Call): Keyboard {
    var t := TrackModifiers(k, c.action, c.key);
    if Code(t, c.key).None? || Swallows(k, c.key) then k else Say(k, c.action, Code(t, c.key).value)
  }

  lemma PlainInputCalls(k: Keyboard, c: Call)
    requires !WorksLatch(k, c)
    ensures var l := Input(k, c.action, c.key); SameCalls(l, Sends(k, c)) && l.shiftDown == k.shiftDown
  {
  }

  /** An input that does not work the latch: the bit follows the key's own events, where they are sent on. */
  lemma PlainInputBit(k: Keyboard, c: Call, b: nat)
    requires b < 8 && !WorksLatch(k, c)
    ensures BitSet(Input(k, c.action, c.key), b) ==
            if c.key == ModifierCode(b) && c.action != NoAction && !Swallows(k, c.key) then c.action == Down
            else BitSet(k, b)
  {
    var t := TrackModifiers(k, c.action, c.key);
    PlainInputCalls(k, c);
    SameCallsBit(Input(k, c.action, c.key), Sends(k, c), b);
    CodeOfModifier(t, c.key, b);
    if Code(t, c.key).Some? {
      SayBitOf(k, c.action, Code(t, c.key).value, b);
    }
  }

  lemma LatchInputCalls(k: Keyboard, c: Call)
    requires WorksLatch(k, c)
    ensures SameCalls(Input(k, c.action, c.key),
                      if c.key == KEY_V then Latch(k, Down)
                      else if c.key == KEY_I then Unlatch(k)
                      else Unlatch(Say(k, c.action, KEY_DELETE)))
    ensures Input(k, c.action, c.key).shiftDown == (c.key == KEY_V && !k.shiftDown)
  {
  }

  lemma LatchInputBit(k: Keyboard, c: Call, b: nat)
    requires b < 8 && WorksLatch(k, c)
    ensures var l := Input(k, c.action, c.key);
            BitSet(l, b) == if Latched(k, b) then false else BitSet(k, b) || Latched(l, b)
  {
    var l, deleted := Input(k, c.action, c.key), Say(k, c.action, KEY_DELETE);
    LatchInputCalls(k, c);
    UnlatchBit(k, b);
    if c.key == KEY_V {
      if !k.shiftDown {
        LatchBit(k, b);
      }
      SameCallsBit(l, Latch(k, Down), b);
    } else if c.key == KEY_I {
      SameCallsBit(l, Unlatch(k), b);
    } else {
      SayBitOf(k, c.action, KEY_DELETE, b);
      UnlatchBit(deleted, b);
      SameCallsBit(l, Unlatch(deleted), b);
    }
  }

  lemma BitStep(k: Keyboard, held: bool, c: Call, b: nat)
    requires b < 8 && BitIsHeld(k, held, b) && (k.shiftDown ==> k.mode == Vim)
    ensures BitIsHeld(Input(k, c.action, c.key), Forward(k, held, c, b), b) <==> ModifierMatches(k, held, c, b)
  {
    if WorksLatch(k, c) {
      LatchInputBit(k, c, b);
      LatchInputCalls(k, c);
    } else {
      PlainInputBit(k, c, b);
      PlainInputCalls(k, c);
    }
  }

  predicate BitExact(inputs: seq<Call>, b: nat)
    requires b < 8
  {
    BitIsHeld(InputAll(inputs), Forwarded(inputs, b), b)
  }

  predicate ModifierMatchesAt(inputs: seq<Call>, n: nat, b: nat)
    requires n < |inputs| && b < 8
  {
    ModifierMatches(InputAll(inputs[..n]), Forwarded(inputs[..n], b), inputs[n], b)
  }

  lemma BitExactStep(inputs: seq<Call>, n: nat, b: nat)
    requires n < |inputs| && b < 8 && BitExact(inputs[..n], b)
    ensures BitExact(inputs[..n + 1], b) <==> ModifierMatchesAt(inputs, n, b)
  {
    var front := inputs[..n];
    assert inputs[..n + 1][..n] == front;
    ReachableIsCoherent(front);
    BitStep(InputAll(front), Forwarded(front, b), inputs[n], b);
  }

  lemma {:induction false} MatchedBitIsExact(inputs: seq<Call>, n: nat, b: nat)
    requires n <= |inputs| && b < 8 && forall i | 0 <= i < n :: ModifierMatchesAt(inputs, i, b)
    ensures BitExact(inputs[..n], b)
  {
    if n > 0 {
      MatchedBitIsExact(inputs, n - 1, b);
      BitExactStep(inputs, n - 1, b);
    } else {
      ModifierIsLastEvent([], b);
    }
  }

  /** In every history: the bit is what is held or latched all along, if and only if every input matches. */
  lemma ModifierIsHeldIff(inputs: seq<Call>, b: nat)
    requires b < 8
    ensures (forall n | 0 <= n <= |inputs| :: BitExact(inputs[..n], b)) <==>
            (forall n | 0 <= n < |inputs| :: ModifierMatchesAt(inputs, n, b))
  {
    if forall n | 0 <= n <= |inputs| :: BitExact(inputs[..n], b) {
      forall n | 0 <= n < |inputs|
        ensures ModifierMatchesAt(inputs, n, b)
      {
        assert BitExact(inputs[..n], b) && BitExact(inputs[..n + 1], b);
        BitExactStep(inputs, n, b);
      }
    }
    if forall n | 0 <= n < |inputs| :: ModifierMatchesAt(inputs, n, b) {
      forall n | 0 <= n <= |inputs|
        ensures BitExact(inputs[..n], b)
      {
        MatchedBitIsExact(inputs, n, b);
      }
    }
  }

  /** Alt and GUI keys are sent on in every mode, and are always right. */
  lemma OtherModifierIsHeld(inputs: seq<Call>, b: nat)
    requires b < 8 && !VimOwn(ModifierCode(b))
    ensures BitExact(inputs, b)
  {
    assert inputs[..|inputs|] == inputs;
    MatchedBitIsExact(inputs, |inputs|, b);
  }

  // ------------------------------------------------------------------
  // Everything released
  // ------------------------------------------------------------------

  /** VIM mode is entered with modifier `b` up. */
  predicate EntersUp(inputs: seq<Call>, n: nat, b: nat)
    requires n < |inputs| && b < 8
  {
    var k := InputAll(inputs[..n]);
    k.mode != Vim && Input(k, inputs[n].action, inputs[n].key).mode == Vim ==> !Forwarded(inputs[..n], b)
  }

  lemma {:induction false} NotForwardedInVim(inputs: seq<Call>, n: nat, b: nat)
    requires n <= |inputs| && b < 8 && VimOwn(ModifierCode(b)) && forall i | 0 <= i < n :: EntersUp(inputs, i, b)
    ensures InputAll(inputs[..n]).mode == Vim ==> !Forwarded(inputs[..n], b)
  {
    if n > 0 {
      NotForwardedInVim(inputs, n - 1, b);
      assert inputs[..n][..n - 1] == inputs[..n - 1];
      assert EntersUp(inputs, n - 1, b);
    }
  }

  /** A modifier that is up whenever VIM mode is entered has the right bit all along. */
  lemma EnteredUpIsExact(inputs: seq<Call>, b: nat)
    requires b < 8 && forall i | 0 <= i < |inputs| :: EntersUp(inputs, i, b)
    ensures BitExact(inputs, b)
  {
    if VimOwn(ModifierCode(b)) {
      forall i | 0 <= i < |inputs|
        ensures ModifierMatchesAt(inputs, i, b)
      {
        NotForwardedInVim(inputs, i, b);
        ReachableIsCoherent(inputs[..i]);
      }
      assert inputs[..|inputs|] == inputs;
      MatchedBitIsExact(inputs, |inputs|, b);
    } else {
      OtherModifierIsHeld(inputs, b);
    }
  }

  lemma {:induction false} ForwardedIsDown(inputs: seq<Call>, b: nat)
    requires b < 8 && Forwarded(inputs, b)
    ensures IsDown(Pressed(inputs), ModifierCode(b))
  {
    var front, c, m := inputs[..|inputs| - 1], inputs[|inputs| - 1], ModifierCode(b);
    var k, pressed := InputAll(front), Pressed(front);
    if c.action == Down && c.key == m {
      assert Held(m, Name(k, m)) in Press(k, pressed, c);
    } else {
      ForwardedIsDown(front, b);
      var e :| e in pressed && e.key == m;
      WithoutKeeps(pressed, c.key);
      assert e in Press(k, pressed, c);
    }
  }

  /** Careful histories: once every key is released, the report is empty but for a latched shift. */
  lemma ReleasedReportIsEmpty(inputs: seq<Call>, b: nat)
    requires forall n | 0 <= n < |inputs| :: CalmAt(inputs, n)
    requires b < 8 && forall n | 0 <= n < |inputs| :: EntersUp(inputs, n, b)
    requires Pressed(inputs) == []
    ensures Table(InputAll(inputs)) == multiset{}
    ensures BitSet(InputAll(inputs), b) <==> Latched(InputAll(inputs), b)
  {
    assert inputs[..|inputs|] == inputs;
    CalmIsExact(inputs, |inputs|);
    EnteredUpIsExact(inputs, b);
    if Forwarded(inputs, b) {
      ForwardedIsDown(inputs, b);
    }
  }
}
