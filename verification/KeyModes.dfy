/** The key mode machine in front of the HID report table. */
module KeyModes {
  import opened Words
  import opened HidReport

  const VIM_KEY: byte := 0xf0
  const FUNCTION_KEY: byte := 0xf1

  // HID key codes
  const KEY_D: byte := 0x07
  const KEY_H: byte := 0x0B
  const KEY_I: byte := 0x0C
  const KEY_J: byte := 0x0D
  const KEY_K: byte := 0x0E
  const KEY_L: byte := 0x0F
  const KEY_V: byte := 0x19
  const KEY_X: byte := 0x1B
  const KEY_4: byte := 0x21
  const KEY_0: byte := 0x27
  const KEY_HOME: byte := 0x4A
  const KEY_PAGE_UP: byte := 0x4B
  const KEY_DELETE: byte := 0x4C
  const KEY_END: byte := 0x4D
  const KEY_PAGE_DOWN: byte := 0x4E
  const KEY_RIGHT: byte := 0x4F
  const KEY_LEFT: byte := 0x50
  const KEY_DOWN: byte := 0x51
  const KEY_UP: byte := 0x52
  const CONTROL_LEFT: byte := 0xE0
  const SHIFT_LEFT: byte := 0xE1
  const CONTROL_RIGHT: byte := 0xE4
  const SHIFT_RIGHT: byte := 0xE5

  datatype Mode = Normal | Vim | Function

  /** `shift` and `ctrl` are the two bits of `current_modifiers`; `calls` are the calls made to send_over_hid. */
  datatype Keyboard = Keyboard(mode: Mode, shift: bool, ctrl: bool, shiftDown: bool, calls: seq<Call>)

  const POWER_UP := Keyboard(Normal, false, false, false, [])

  function Say(k: Keyboard, action: Act, key: byte): Keyboard {
    k.(calls := k.calls + [Call(action, key)])
  }

  /** Lets go of the shift key that V latched. */
  function Unlatch(k: Keyboard): Keyboard {
    if k.shiftDown then Say(k, Up, SHIFT_LEFT).(shiftDown := false) else k
  }

  /** The V key toggles a held left shift. */
  function Latch(k: Keyboard, action: Act): Keyboard {
    if action != Down then k
    else if k.shiftDown then Unlatch(k)
    else Say(k, Down, SHIFT_LEFT).(shiftDown := true)
  }

  /** What a digit-row key sends in function mode. */
  function FunctionKey(key: byte): byte {
    if 0x1E <= key <= 0x27 then key - 0x1E + 0x3A
    else if key == 0x2D then 0x44
    else if key == 0x2E then 0x45
    else key
  }

  /** Keys that VIM mode only renames; None if the key is handled otherwise. */
  function VimKey(key: byte, shift: bool, ctrl: bool): Option<byte> {
    if ctrl then None
    else if shift then
      if key == KEY_4 then Some(KEY_END)
      else if key == KEY_H then Some(KEY_PAGE_UP)
      else if key == KEY_L then Some(KEY_PAGE_DOWN)
      else None
    else
      if key == KEY_0 then Some(KEY_HOME)
      else if key == KEY_H then Some(KEY_LEFT)
      else if key == KEY_J then Some(KEY_DOWN)
      else if key == KEY_K then Some(KEY_UP)
      else if key == KEY_L then Some(KEY_RIGHT)
      else None
  }

  function VimInput(k: Keyboard, action: Act, key: byte): Keyboard {
    var plain := !k.shift && !k.ctrl;
    if VimKey(key, k.shift, k.ctrl).Some? then Say(k, action, VimKey(key, k.shift, k.ctrl).value)
    else if plain && (key == KEY_X || key == KEY_D) then Unlatch(Say(k, action, KEY_DELETE))
    else if plain && key == KEY_V then Latch(k, action)
    else if plain && key == KEY_I then Unlatch(k).(mode := Normal)
    else if key in {SHIFT_LEFT, SHIFT_RIGHT, CONTROL_LEFT, CONTROL_RIGHT} then k
    else Say(k, action, key)
  }

  function TrackModifiers(k: Keyboard, action: Act, key: byte): Keyboard {
    if action == NoAction then k
    else if key in {SHIFT_LEFT, SHIFT_RIGHT} then k.(shift := action == Down)
    else if key in {CONTROL_LEFT, CONTROL_RIGHT} then k.(ctrl := action == Down)
    else k
  }

  function Input(k0: Keyboard, action: Act, key: byte): Keyboard {
    var k := TrackModifiers(k0, action, key);
    match k.mode
    case Normal =>
      if key < 0xf0 then Say(k, action, key)
      else if key == VIM_KEY && action == Down then k.(mode := Vim)
      else if key == FUNCTION_KEY && action == Down then k.(mode := Function)
      else k
    case Vim => if key < 0xf0 then VimInput(k, action, key) else k
    case Function =>
      if key < 0xf0 then Say(k, action, FunctionKey(key))
      else if key == FUNCTION_KEY && action == Down then k.(mode := Normal)
      else k
  }

  // ------------------------------------------------------------------
  // The program
  // ------------------------------------------------------------------

  const KEYMAP_NORMAL: seq<byte> := [0x1E, 0x1F, 0x20, 0x21, 0x22, 0x23, 0x24, 0x25, 0x26, 0x27, 0x2D, 0x2E]
  const KEYMAP_FN: seq<byte> := [0x3A, 0x3B, 0x3C, 0x3D, 0x3E, 0x3F, 0x40, 0x41, 0x42, 0x43, 0x44, 0x45]

  lemma MappedKey(i: nat)
    requires i < |KEYMAP_NORMAL|
    ensures i < |KEYMAP_FN| && KEYMAP_FN[i] == FunctionKey(KEYMAP_NORMAL[i])
  {
  }

  lemma UnmappedKey(key: byte)
    requires forall j | 0 <= j < |KEYMAP_NORMAL| :: key != KEYMAP_NORMAL[j]
    ensures FunctionKey(key) == key
  {
    assert KEYMAP_NORMAL[0] == 0x1E && KEYMAP_NORMAL[1] == 0x1F && KEYMAP_NORMAL[2] == 0x20;
    assert KEYMAP_NORMAL[3] == 0x21 && KEYMAP_NORMAL[4] == 0x22 && KEYMAP_NORMAL[5] == 0x23;
    assert KEYMAP_NORMAL[6] == 0x24 && KEYMAP_NORMAL[7] == 0x25 && KEYMAP_NORMAL[8] == 0x26;
    assert KEYMAP_NORMAL[9] == 0x27 && KEYMAP_NORMAL[10] == 0x2D && KEYMAP_NORMAL[11] == 0x2E;
  }

  /** A 16-bit key value: the key code with the modifier flags above it. */
  datatype Chord = Chord(key: byte, shift: bool, ctrl: bool)

  class KeyHandler {
    const hid: HidTable
    var currentMode: Mode
    var shift: bool       // the two flags of current_modifiers
    var ctrl: bool
    var shiftDown: bool

    ghost predicate Valid()
      reads this, hid, hid.depressedKeys
    {
      hid.Valid()
    }

    ghost function View(): Keyboard
      reads this, hid
    {
      Keyboard(currentMode, shift, ctrl, shiftDown, hid.calls)
    }

    constructor ()
      ensures Valid() && View() == POWER_UP && fresh(hid) && fresh(hid.depressedKeys)
    {
      hid := new HidTable();
      currentMode, shift, ctrl, shiftDown := Normal, false, false, false;
    }

    method ReleaseLatch()
      requires Valid()
      modifies this`shiftDown, hid, hid.depressedKeys
      ensures Valid() && View() == Unlatch(old(View()))
    {
      if shiftDown {
        hid.SendOverHid(Up, SHIFT_LEFT);
        shiftDown := false;
      }
    }

    /** Searches the two key maps in step. */
    method FunctionProcessInput(action: Act, key: byte)
      requires Valid()
      modifies hid, hid.depressedKeys
      ensures Valid() && View() == Say(old(View()), action, FunctionKey(key))
    {
      for i := 0 to |KEYMAP_NORMAL|
        invariant Valid() && View() == old(View())
        invariant forall j | 0 <= j < i :: key != KEYMAP_NORMAL[j]
      {
        if key == KEYMAP_NORMAL[i] {
          MappedKey(i);
          hid.SendOverHid(action, KEYMAP_FN[i]);
          return;
        }
      }
      UnmappedKey(key);
      hid.SendOverHid(action, key);
    }

    /** The cases of the switch that only rename a key. */
    method VimRename(action: Act, chord: Chord) returns (done: bool)
      requires Valid()
      modifies hid, hid.depressedKeys
      ensures var renamed := VimKey(chord.key, chord.shift, chord.ctrl);
              && done == renamed.Some?
              && View() == if done then Say(old(View()), action, renamed.value) else old(View())
      ensures Valid()
    {
      var out: byte;
      if chord == Chord(KEY_0, false, false) {
        out := KEY_HOME;
      } else if chord == Chord(KEY_4, true, false) {
        out := KEY_END;
      } else if chord == Chord(KEY_H, true, false) {
        out := KEY_PAGE_UP;
      } else if chord == Chord(KEY_L, true, false) {
        out := KEY_PAGE_DOWN;
      } else if chord == Chord(KEY_H, false, false) {
        out := KEY_LEFT;
      } else if chord == Chord(KEY_J, false, false) {
        out := KEY_DOWN;
      } else if chord == Chord(KEY_K, false, false) {
        out := KEY_UP;
      } else if chord == Chord(KEY_L, false, false) {
        out := KEY_RIGHT;
      } else {
        return false;
      }
      hid.SendOverHid(action, out);
      done := true;
    }

    method VimProcessInput(action: Act, chord: Chord)
      requires Valid() && chord.shift == shift && chord.ctrl == ctrl
      modifies this`shiftDown, this`currentMode, hid, hid.depressedKeys
      ensures Valid() && View() == VimInput(old(View()), action, chord.key)
    {
      var renamed := VimRename(action, chord);
      if !renamed {
        VimCommand(action, chord);
      }
    }

    /** The remaining cases: delete, latch, leave, and everything else. */
    method VimCommand(action: Act, chord: Chord)
      requires Valid() && chord.shift == shift && chord.ctrl == ctrl
      requires VimKey(chord.key, shift, ctrl).None?
      modifies this`shiftDown, this`currentMode, hid, hid.depressedKeys
      ensures Valid() && View() == VimInput(old(View()), action, chord.key)
    {
      if chord == Chord(KEY_X, false, false) || chord == Chord(KEY_D, false, false) {
        hid.SendOverHid(action, KEY_DELETE);
        ReleaseLatch();
      } else if chord == Chord(KEY_V, false, false) {
        VimLatch(action);
      } else if chord == Chord(KEY_I, false, false) {
        ReleaseLatch();
        currentMode := Normal;
      } else if chord.key != SHIFT_LEFT && chord.key != SHIFT_RIGHT
                && chord.key != CONTROL_LEFT && chord.key != CONTROL_RIGHT {
        hid.SendOverHid(action, chord.key);
      }
    }

    /** The V key toggles a held left shift. */
    method VimLatch(action: Act)
      requires Valid()
      modifies this`shiftDown, hid, hid.depressedKeys
      ensures Valid() && View() == Latch(old(View()), action)
    {
      if action == Down {
        if shiftDown {
          ReleaseLatch();
        } else {
          hid.SendOverHid(Down, SHIFT_LEFT);
          shiftDown := true;
        }
      }
    }

    method UpdateModifiers(action: Act, key: byte)
      modifies this`shift, this`ctrl
      ensures View() == TrackModifiers(old(View()), action, key)
    {
      if key == SHIFT_LEFT || key == SHIFT_RIGHT {
        if action == Down {
          shift := true;
        } else if action == Up {
          shift := false;
        }
      }
      if key == CONTROL_LEFT || key == CONTROL_RIGHT {
        if action == Down {
          ctrl := true;
        } else if action == Up {
          ctrl := false;
        }
      }
    }

    method ProcessInput(action: Act, key: byte)
      requires Valid()
      modifies this, hid, hid.depressedKeys
      ensures Valid() && View() == Input(old(View()), action, key)
    {
      UpdateModifiers(action, key);
      if currentMode == Normal {
        if key < 0xf0 {
          hid.SendOverHid(action, key);
        } else if key == VIM_KEY && action == Down {
          currentMode := Vim;
        } else if key == FUNCTION_KEY && action == Down {
          currentMode := Function;
        }
      } else if currentMode == Vim {
        if key < 0xf0 {
          VimProcessInput(action, Chord(key, shift, ctrl));
        }
      } else {
        if key < 0xf0 {
          FunctionProcessInput(action, key);
        } else if key == FUNCTION_KEY && action == Down {
          currentMode := Normal;
        }
      }
    }
  }

  // ------------------------------------------------------------------
  // Invariants over every run
  // ------------------------------------------------------------------

  function InputAll(inputs: seq<Call>): Keyboard {
    if inputs == [] then POWER_UP
    else Input(InputAll(inputs[..|inputs| - 1]), inputs[|inputs| - 1].action, inputs[|inputs| - 1].key)
  }

  const LEFT_SHIFT_BIT := 1

  /** A latched shift means VIM mode and the HID left-shift bit; only key codes below 0xf0 are sent. */
  ghost predicate Coherent(k: Keyboard) {
    && (k.shiftDown ==> k.mode == Vim && ShiftHeld(k))
    && (forall c | c in k.calls :: c.key < 0xf0)
  }

  function ShiftHeld(k: Keyboard): bool {
    HasBit(SendAll(k.calls).modifiers, LEFT_SHIFT_BIT)
  }

  lemma SayBit(k: Keyboard, action: Act, key: byte)
    ensures ShiftHeld(Say(k, action, key)) <==>
            if action != NoAction && key == SHIFT_LEFT then action == Down else ShiftHeld(k)
    ensures forall c | c in Say(k, action, key).calls :: c in k.calls || c == Call(action, key)
  {
    SendSnoc(k.calls, Call(action, key));
    SendBit(SendAll(k.calls), Call(action, key), LEFT_SHIFT_BIT);
  }

  /** Sending any key but left shift keeps the invariant. */
  lemma SayCoherent(k: Keyboard, action: Act, key: byte)
    requires Coherent(k) && key < 0xf0 && (k.shiftDown ==> key != SHIFT_LEFT)
    ensures Coherent(Say(k, action, key))
  {
    SayBit(k, action, key);
  }

  lemma UnlatchCoherent(k: Keyboard)
    requires Coherent(k)
    ensures Coherent(Unlatch(k)) && !Unlatch(k).shiftDown
    ensures k.shiftDown ==> !ShiftHeld(Unlatch(k))
  {
    SayBit(k, Up, SHIFT_LEFT);
  }

  lemma LatchCoherent(k: Keyboard, action: Act)
    requires Coherent(k) && k.mode == Vim
    ensures Coherent(Latch(k, action)) && Latch(k, action).mode == Vim
  {
    UnlatchCoherent(k);
    SayBit(k, Down, SHIFT_LEFT);
  }

  lemma VimCoherent(k: Keyboard, action: Act, key: byte)
    requires Coherent(k) && k.mode == Vim && key < 0xf0
    ensures Coherent(VimInput(k, action, key))
    ensures VimInput(k, action, key).mode != Vim && k.shiftDown ==> !ShiftHeld(VimInput(k, action, key))
  {
    var renamed := VimKey(key, k.shift, k.ctrl);
    if renamed.Some? {
      SayCoherent(k, action, renamed.value);
    } else if key == KEY_X || key == KEY_D {
      SayCoherent(k, action, KEY_DELETE);
      SayCoherent(k, action, key);
      UnlatchCoherent(Say(k, action, KEY_DELETE));
    } else if key == KEY_V {
      SayCoherent(k, action, key);
      LatchCoherent(k, action);
    } else {
      if key != SHIFT_LEFT {
        SayCoherent(k, action, key);
      }
      UnlatchCoherent(k);
    }
  }

  lemma InputCoherent(k: Keyboard, action: Act, key: byte)
    requires Coherent(k)
    ensures Coherent(Input(k, action, key))
  {
    var t := TrackModifiers(k, action, key);
    assert Coherent(t);
    if t.mode == Vim {
      if key < 0xf0 {
        VimCoherent(t, action, key);
      }
    } else if key < 0xf0 {
      SayCoherent(t, action, key);
      SayCoherent(t, action, FunctionKey(key));
    }
  }

  /** The cross-file invariant holds after every input history. */
  lemma {:induction false} ReachableIsCoherent(inputs: seq<Call>)
    ensures Coherent(InputAll(inputs))
  {
    if inputs != [] {
      var front, c := inputs[..|inputs| - 1], inputs[|inputs| - 1];
      ReachableIsCoherent(front);
      InputCoherent(InputAll(front), c.action, c.key);
    }
  }

  /** Leaving VIM mode always lets go of a shift it latched. */
  lemma LeavingVimReleasesShift(inputs: seq<Call>, action: Act, key: byte)
    requires InputAll(inputs).mode == Vim && Input(InputAll(inputs), action, key).mode != Vim
    ensures !Input(InputAll(inputs), action, key).shiftDown
    ensures InputAll(inputs).shiftDown ==> !ShiftHeld(Input(InputAll(inputs), action, key))
  {
    ReachableIsCoherent(inputs);
    VimCoherent(TrackModifiers(InputAll(inputs), action, key), action, key);
    InputCoherent(InputAll(inputs), action, key);
  }

  /** No key of 0xf0 or above, and no modifier, is ever in the report table. */
  lemma {:induction false} TableHoldsPlainKeys(calls: seq<Call>)
    requires forall c | c in calls :: c.key < 0xf0
    ensures forall x | x in SendAll(calls).slots :: x < 0xf0 && !IsModifier(x)
  {
    if calls != [] {
      var front := calls[..|calls| - 1];
      assert forall c | c in front :: c in calls;
      var c := calls[|calls| - 1];
      assert c in calls;
      TableHoldsPlainKeys(front);
      ReplaceIn(SendAll(front).slots, 0, c.key);
      ReplaceIn(SendAll(front).slots, c.key, 0);
    }
  }

  // ------------------------------------------------------------------
  // Runs that stay in NORMAL mode
  // ------------------------------------------------------------------

  function BelowF0(inputs: seq<Call>): seq<Call> {
    if inputs == [] then []
    else
      var front, c := BelowF0(inputs[..|inputs| - 1]), inputs[|inputs| - 1];
      if c.key < 0xf0 then front + [c] else front
  }

  /** No input switches the mode. */
  predicate NoModeKeys(inputs: seq<Call>) {
    forall c | c in inputs :: c.action == Down ==> c.key != VIM_KEY && c.key != FUNCTION_KEY
  }

  /** Without mode keys exactly the events below 0xf0 are forwarded, in order. */
  lemma {:induction false} NormalForwards(inputs: seq<Call>)
    requires NoModeKeys(inputs)
    ensures InputAll(inputs).mode == Normal && InputAll(inputs).calls == BelowF0(inputs)
  {
    if inputs != [] {
      var front := inputs[..|inputs| - 1];
      assert forall c | c in front :: c in inputs;
      assert inputs[|inputs| - 1] in inputs;
      NormalForwards(front);
    }
  }

  /** The run stays in NORMAL mode exactly when no input switches the mode. */
  lemma {:induction false} StaysNormalIff(inputs: seq<Call>)
    ensures NoModeKeys(inputs) <==> forall n | 0 <= n <= |inputs| :: InputAll(inputs[..n]).mode == Normal
  {
    if NoModeKeys(inputs) {
      forall n | 0 <= n <= |inputs|
        ensures InputAll(inputs[..n]).mode == Normal
      {
        NormalForwards(inputs[..n]);
      }
    } else {
      var i :| 0 <= i < |inputs| && inputs[i].action == Down && inputs[i].key in {VIM_KEY, FUNCTION_KEY};
      assert inputs[..i + 1][..i] == inputs[..i];
    }
  }

  // ------------------------------------------------------------------
  // Modifiers and modes, from the inputs
  // ------------------------------------------------------------------

  /** The last up or down of the two keys was a down. */
  predicate LastDownAmong(inputs: seq<Call>, a: byte, b: byte) {
    inputs != [] &&
    (var c := inputs[|inputs| - 1];
     if c.action != NoAction && (c.key == a || c.key == b) then c.action == Down
     else LastDownAmong(inputs[..|inputs| - 1], a, b))
  }

  lemma InputModifiers(k: Keyboard, c: Call)
    ensures var l := Input(k, c.action, c.key);
            && l.shift == (if c.action != NoAction && c.key in {0xE1, 0xE5} then c.action == Down else k.shift)
            && l.ctrl == (if c.action != NoAction && c.key in {0xE0, 0xE4} then c.action == Down else k.ctrl)
  {
  }

  /** Shift and control are what the last event of either key of the pair says, in every mode. */
  lemma {:induction false} ModifiersAreLastEvents(inputs: seq<Call>)
    ensures InputAll(inputs).shift <==> LastDownAmong(inputs, 0xE1, 0xE5)
    ensures InputAll(inputs).ctrl <==> LastDownAmong(inputs, 0xE0, 0xE4)
  {
    if inputs != [] {
      var front := inputs[..|inputs| - 1];
      ModifiersAreLastEvents(front);
      InputModifiers(InputAll(front), inputs[|inputs| - 1]);
    }
  }

  /** The mode after an input: key 0xF0 enters VIM, 0x0C (the I key, alone) leaves it, 0xF1 toggles FUNCTION. */
  lemma ModeAfter(inputs: seq<Call>, c: Call)
    ensures var k, l := InputAll(inputs), InputAll(inputs + [c]);
            l.mode == match k.mode
                      case Normal =>
                        if c == Call(Down, 0xF0) then Vim else if c == Call(Down, 0xF1) then Function else Normal
                      case Vim => if c.key == 0x0C && !k.shift && !k.ctrl then Normal else Vim
                      case Function => if c == Call(Down, 0xF1) then Normal else Function
  {
    InputsSnoc(inputs, c);
  }

  lemma InputsSnoc(inputs: seq<Call>, c: Call)
    ensures InputAll(inputs + [c]) == Input(InputAll(inputs), c.action, c.key)
  {
    assert (inputs + [c])[..|inputs|] == inputs;
  }
}
