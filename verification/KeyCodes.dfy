/** The key codes that the modes send, as numbers, after any history. */
module KeyCodes {
  import opened Words
  import opened HidReport
  import opened KeyModes

  /** VIM mode without modifiers: 0 h j k l. */
  const VIM_KEYS: seq<(byte, byte)> := [(0x27, 0x4A), (0x0B, 0x50), (0x0D, 0x51), (0x0E, 0x52), (0x0F, 0x4F)]

  /** VIM mode with shift: 4 h l. */
  const VIM_SHIFT_KEYS: seq<(byte, byte)> := [(0x21, 0x4D), (0x0B, 0x4B), (0x0F, 0x4E)]

  predicate Listed(table: seq<(byte, byte)>, key: byte) {
    exists i :: 0 <= i < |table| && table[i].0 == key
  }

  /** What a history says of the modifier keys. */
  predicate ShiftDown(inputs: seq<Call>) {
    LastDownAmong(inputs, 0xE1, 0xE5)
  }

  predicate ControlDown(inputs: seq<Call>) {
    LastDownAmong(inputs, 0xE0, 0xE4)
  }

  lemma Modifiers(inputs: seq<Call>)
    ensures InputAll(inputs).shift == ShiftDown(inputs) && InputAll(inputs).ctrl == ControlDown(inputs)
  {
    ModifiersAreLastEvents(inputs);
  }

  lemma VimRow(k: Keyboard, action: Act, i: nat)
    requires k.mode == Vim && !k.shift && !k.ctrl && i < |VIM_KEYS|
    ensures Input(k, action, VIM_KEYS[i].0).calls == k.calls + [Call(action, VIM_KEYS[i].1)]
  {
  }

  lemma VimShiftRow(k: Keyboard, action: Act, i: nat)
    requires k.mode == Vim && k.shift && !k.ctrl && i < |VIM_SHIFT_KEYS|
    ensures Input(k, action, VIM_SHIFT_KEYS[i].0).calls == k.calls + [Call(action, VIM_SHIFT_KEYS[i].1)]
  {
  }

  /** 0 h j k l are sent as Home and the arrow keys. */
  lemma VimNavigates(inputs: seq<Call>, action: Act, i: nat)
    requires InputAll(inputs).mode == Vim && !ControlDown(inputs) && !ShiftDown(inputs) && i < |VIM_KEYS|
    ensures InputAll(inputs + [Call(action, VIM_KEYS[i].0)]).calls ==
            InputAll(inputs).calls + [Call(action, VIM_KEYS[i].1)]
  {
    Modifiers(inputs);
    InputsSnoc(inputs, Call(action, VIM_KEYS[i].0));
    VimRow(InputAll(inputs), action, i);
  }

  /** With shift, 4 h l are sent as End and the page keys. */
  lemma VimNavigatesShifted(inputs: seq<Call>, action: Act, i: nat)
    requires InputAll(inputs).mode == Vim && !ControlDown(inputs) && ShiftDown(inputs) && i < |VIM_SHIFT_KEYS|
    ensures InputAll(inputs + [Call(action, VIM_SHIFT_KEYS[i].0)]).calls ==
            InputAll(inputs).calls + [Call(action, VIM_SHIFT_KEYS[i].1)]
  {
    Modifiers(inputs);
    InputsSnoc(inputs, Call(action, VIM_SHIFT_KEYS[i].0));
    VimShiftRow(InputAll(inputs), action, i);
  }

  lemma VimCommand(k: Keyboard, action: Act, key: byte)
    requires k.mode == Vim && !k.shift && !k.ctrl
    ensures var release := if k.shiftDown then [Call(Up, 0xE1)] else [];
            var calls := Input(k, action, key).calls;
            && (key == 0x1B || key == 0x07 ==> calls == k.calls + [Call(action, 0x4C)] + release)
            && (key == 0x0C ==> calls == k.calls + release)
            && (key == 0x19 && action == Down ==>
                  calls == k.calls + if k.shiftDown then release else [Call(Down, 0xE1)])
            && (key == 0x19 && action != Down ==> calls == k.calls)
  {
  }

  /** X and D delete, and let go of a latched shift; V works the latch; I leaves, and lets go of it too. */
  lemma VimCommands(inputs: seq<Call>, action: Act, key: byte)
    requires InputAll(inputs).mode == Vim && !ControlDown(inputs) && !ShiftDown(inputs)
    ensures var k := InputAll(inputs);
            var release := if k.shiftDown then [Call(Up, 0xE1)] else [];
            var calls := InputAll(inputs + [Call(action, key)]).calls;
            && (key == 0x1B || key == 0x07 ==> calls == k.calls + [Call(action, 0x4C)] + release)
            && (key == 0x0C ==> calls == k.calls + release)
            && (key == 0x19 && action == Down ==>
                  calls == k.calls + if k.shiftDown then release else [Call(Down, 0xE1)])
            && (key == 0x19 && action != Down ==> calls == k.calls)
  {
    Modifiers(inputs);
    InputsSnoc(inputs, Call(action, key));
    VimCommand(InputAll(inputs), action, key);
  }

  /** In VIM mode the shift and control keys, and the special keys, send nothing. */
  lemma VimSwallows(inputs: seq<Call>, action: Act, key: byte)
    requires InputAll(inputs).mode == Vim && (key in {0xE0, 0xE1, 0xE4, 0xE5} || key >= 0xF0)
    ensures InputAll(inputs + [Call(action, key)]).calls == InputAll(inputs).calls
  {
    InputsSnoc(inputs, Call(action, key));
    SwallowedBy(InputAll(inputs), action, key);
  }

  lemma SwallowedBy(k: Keyboard, action: Act, key: byte)
    requires k.mode == Vim && (key in {0xE0, 0xE1, 0xE4, 0xE5} || key >= 0xF0)
    ensures Input(k, action, key).calls == k.calls
  {
  }

  lemma PassedOn(k: Keyboard, action: Act, key: byte)
    requires k.mode == Vim && key < 0xF0 && key !in {0xE0, 0xE1, 0xE4, 0xE5}
    requires k.ctrl || (if k.shift then key !in {0x21, 0x0B, 0x0F}
                        else key !in {0x27, 0x0B, 0x0D, 0x0E, 0x0F, 0x1B, 0x07, 0x19, 0x0C})
    ensures Input(k, action, key).calls == k.calls + [Call(action, key)]
  {
  }

  /** All other keys, and with control all keys, are sent as they are. */
  lemma VimPassesOn(inputs: seq<Call>, action: Act, key: byte)
    requires InputAll(inputs).mode == Vim && key < 0xF0 && key !in {0xE0, 0xE1, 0xE4, 0xE5}
    requires ControlDown(inputs) ||
             (if ShiftDown(inputs) then !Listed(VIM_SHIFT_KEYS, key)
              else !Listed(VIM_KEYS, key) && key !in {0x1B, 0x07, 0x19, 0x0C})
    ensures InputAll(inputs + [Call(action, key)]).calls == InputAll(inputs).calls + [Call(action, key)]
  {
    Modifiers(inputs);
    InputsSnoc(inputs, Call(action, key));
    assert VIM_KEYS[0].0 == 0x27 && VIM_KEYS[1].0 == 0x0B && VIM_KEYS[2].0 == 0x0D;
    assert VIM_KEYS[3].0 == 0x0E && VIM_KEYS[4].0 == 0x0F;
    assert VIM_SHIFT_KEYS[0].0 == 0x21 && VIM_SHIFT_KEYS[1].0 == 0x0B && VIM_SHIFT_KEYS[2].0 == 0x0F;
    PassedOn(InputAll(inputs), action, key);
  }

  /** F1 to F12 on the number row: 1 to 0 are 30 to 39, minus and equals 45 and 46. */
  function RowCode(key: byte): byte {
    if 30 <= key <= 39 then 58 + (key - 30) else if 45 <= key <= 46 then 68 + (key - 45) else key
  }

  lemma FunctionRowCall(k: Keyboard, action: Act, key: byte)
    requires k.mode == Function && key < 0xF0
    ensures Input(k, action, key).calls == k.calls + [Call(action, RowCode(key))]
  {
  }

  lemma FunctionRow(inputs: seq<Call>, action: Act, key: byte)
    requires InputAll(inputs).mode == Function && key < 0xF0
    ensures InputAll(inputs + [Call(action, key)]).calls == InputAll(inputs).calls + [Call(action, RowCode(key))]
  {
    InputsSnoc(inputs, Call(action, key));
    FunctionRowCall(InputAll(inputs), action, key);
  }
}
