/** The six-slot keyboard report table and its modifier byte (Appendix B.1 of the USB HID 1.11 specification). */
module HidReport {
  import opened Words

  const SLOTS := 6

  datatype Act = NoAction | Up | Down
  datatype Call = Call(action: Act, key: byte)
  datatype Report = Report(modifiers: bv8, keys: seq<byte>)
  datatype Hid = Hid(slots: seq<byte>, modifiers: bv8)

  predicate IsModifier(key: byte) {
    key / 16 == 14
  }

  /** 1 << (key & 0x0f), truncated to eight bits. */
  function BitOf(k: nat): bv8 {
    if k == 0 then 1 else if k == 1 then 2 else if k == 2 then 4 else if k == 3 then 8
    else if k == 4 then 16 else if k == 5 then 32 else if k == 6 then 64 else if k == 7 then 128
    else 0
  }

  function WithBit(modifiers: bv8, k: nat, on: bool): bv8 {
    if on then modifiers | BitOf(k) else modifiers & !BitOf(k)
  }

  /** The first slot that holds `x`, or the length. */
  function FirstSlot(slots: seq<byte>, x: byte): (i: nat)
    ensures i <= |slots|
    ensures i < |slots| ==> slots[i] == x
    ensures forall j | 0 <= j < i :: slots[j] != x
  {
    if slots == [] || slots[0] == x then 0 else 1 + FirstSlot(slots[1..], x)
  }

  function Replace(slots: seq<byte>, x: byte, y: byte): seq<byte> {
    var i := FirstSlot(slots, x);
    if i < |slots| then slots[i := y] else slots
  }

  function Send(h: Hid, c: Call): Hid {
    if c.action == NoAction then h
    else if IsModifier(c.key) then
      h.(modifiers := WithBit(h.modifiers, c.key % 16, c.action == Down))
    else if c.action == Down then h.(slots := Replace(h.slots, 0, c.key))
    else h.(slots := Replace(h.slots, c.key, 0))
  }

  class HidTable {
    const depressedKeys: array<byte>
    var modifiers: bv8
    var reports: seq<Report>     // the keyboard_update calls made
    ghost var calls: seq<Call>   // the calls of SendOverHid so far

    ghost predicate Valid()
      reads this, depressedKeys
    {
      depressedKeys.Length == SLOTS && View() == SendAll(calls)
    }

    ghost function View(): Hid
      reads this, depressedKeys
    {
      Hid(depressedKeys[..], modifiers)
    }

    constructor ()
      ensures Valid() && fresh(depressedKeys) && calls == [] && reports == []
    {
      depressedKeys := new byte[SLOTS](_ => 0);
      modifiers, reports, calls := 0, [], [];
      new;
      assert depressedKeys[..] == [0, 0, 0, 0, 0, 0];
    }

    /** Overwrites the first slot holding `x`. */
    method ReplaceFirst(x: byte, y: byte)
      requires depressedKeys.Length == SLOTS
      modifies depressedKeys
      ensures depressedKeys[..] == Replace(old(depressedKeys[..]), x, y)
    {
      for i := 0 to depressedKeys.Length
        invariant depressedKeys[..] == old(depressedKeys[..])
        invariant forall j | 0 <= j < i :: depressedKeys[j] != x
      {
        if depressedKeys[i] == x {
          ghost var first := FirstSlot(depressedKeys[..], x);
          assert first == i by {
            assert depressedKeys[..][i] == x;
            assert forall j | 0 <= j < i :: depressedKeys[..][j] != x;
          }
          depressedKeys[i] := y;
          return;
        }
      }
      assert forall j | 0 <= j < SLOTS :: depressedKeys[..][j] != x;
    }

    /** Updates the modifier byte or the table. */
    method Update(action: Act, key: byte)
      requires depressedKeys.Length == SLOTS
      modifies this`modifiers, depressedKeys
      ensures View() == Send(old(View()), Call(action, key))
    {
      if action == NoAction {
        return;
      }
      if IsModifier(key) {
        modifiers := WithBit(modifiers, key % 16, action == Down);
      } else if action == Down {
        ReplaceFirst(0, key);
      } else {
        ReplaceFirst(key, 0);
      }
    }

    /** Applies one key event, and notes the call. */
    method Apply(action: Act, key: byte)
      requires Valid()
      modifies this`modifiers, this`calls, depressedKeys
      ensures Valid() && calls == old(calls) + [Call(action, key)]
      ensures View() == Send(old(View()), Call(action, key))
    {
      Update(action, key);
      SendSnoc(calls, Call(action, key));
      calls := calls + [Call(action, key)];
    }

    /** Applies one key event and sends the report. */
    method SendOverHid(action: Act, key: byte)
      requires Valid()
      modifies this, depressedKeys
      ensures Valid() && calls == old(calls) + [Call(action, key)]
      ensures View() == Send(old(View()), Call(action, key))
      ensures reports == old(reports) + if action == NoAction then [] else [Report(modifiers, depressedKeys[..])]
    {
      Apply(action, key);
      if action != NoAction {
        reports := reports + [Report(modifiers, depressedKeys[..])];
      }
    }
  }

  const START := Hid([0, 0, 0, 0, 0, 0], 0)

  function SendAll(calls: seq<Call>): Hid {
    if calls == [] then START else Send(SendAll(calls[..|calls| - 1]), calls[|calls| - 1])
  }

  lemma SendSnoc(calls: seq<Call>, c: Call)
    ensures SendAll(calls + [c]) == Send(SendAll(calls), c)
  {
    assert (calls + [c])[..|calls|] == calls;
  }

  // ------------------------------------------------------------------
  // The slots hold a multiset of at most six keys
  // ------------------------------------------------------------------

  /** The keys in the table, empty slots left out. */
  function Keys(slots: seq<byte>): multiset<byte> {
    multiset(slots)[0 := 0]
  }

  predicate KeyEvent(c: Call) {
    c.action != NoAction && c.key != 0 && !IsModifier(c.key)
  }

  /** The reference: downs add while there is room, ups remove. */
  function Capped(calls: seq<Call>): multiset<byte> {
    if calls == [] then multiset{}
    else
      var held, c := Capped(calls[..|calls| - 1]), calls[|calls| - 1];
      if !KeyEvent(c) then held
      else if c.action == Up then held - multiset{c.key}
      else if |held| < SLOTS then held + multiset{c.key}
      else held
  }

  lemma MultisetOfUpdate(slots: seq<byte>, i: nat, y: byte)
    requires i < |slots|
    ensures multiset(slots[i := y]) == multiset(slots) - multiset{slots[i]} + multiset{y}
  {
    assert slots == slots[..i] + [slots[i]] + slots[i + 1..];
    assert slots[i := y] == slots[..i] + [y] + slots[i + 1..];
  }

  lemma CountOfSlots(slots: seq<byte>)
    ensures |multiset(slots)| == |slots|
    ensures |Keys(slots)| + multiset(slots)[0] == |slots|
    ensures 0 in slots <==> |Keys(slots)| < |slots|
  {
    var m := multiset(slots);
    assert m == m[0 := 0] + multiset{}[0 := m[0]];
  }

  lemma ReplaceKeys(slots: seq<byte>, x: byte, y: byte)
    ensures Keys(Replace(slots, x, y)) ==
            if x in slots then (multiset(slots) - multiset{x} + multiset{y})[0 := 0] else Keys(slots)
    ensures |Replace(slots, x, y)| == |slots|
  {
    var i := FirstSlot(slots, x);
    if i < |slots| {
      MultisetOfUpdate(slots, i, y);
    }
  }

  lemma PressKeys(slots: seq<byte>, key: byte)
    requires |slots| == SLOTS
    ensures Keys(Replace(slots, 0, key)) ==
            if key != 0 && |Keys(slots)| < SLOTS then Keys(slots) + multiset{key} else Keys(slots)
  {
    CountOfSlots(slots);
    ReplaceKeys(slots, 0, key);
  }

  lemma ReleaseKeys(slots: seq<byte>, key: byte)
    ensures Keys(Replace(slots, key, 0)) == if key != 0 then Keys(slots) - multiset{key} else Keys(slots)
  {
    ReplaceKeys(slots, key, 0);
  }

  lemma ReplaceIn(slots: seq<byte>, x: byte, y: byte)
    ensures forall z | z in Replace(slots, x, y) :: z in slots || z == y
  {
  }

  /** One call changes the table's keys as it changes the reference. */
  lemma SendKeys(h: Hid, c: Call)
    requires |h.slots| == SLOTS
    ensures |Send(h, c).slots| == SLOTS
    ensures Keys(Send(h, c).slots) ==
            if !KeyEvent(c) then Keys(h.slots)
            else if c.action == Up then Keys(h.slots) - multiset{c.key}
            else if |Keys(h.slots)| < SLOTS then Keys(h.slots) + multiset{c.key}
            else Keys(h.slots)
  {
    if c.action != NoAction && !IsModifier(c.key) {
      if c.action == Down {
        PressKeys(h.slots, c.key);
      } else {
        ReleaseKeys(h.slots, c.key);
      }
    }
  }

  /** In any history the table refines the capped multiset. */
  lemma {:induction false} TableIsCapped(calls: seq<Call>)
    ensures |SendAll(calls).slots| == SLOTS
    ensures Keys(SendAll(calls).slots) == Capped(calls)
  {
    if calls != [] {
      var front := calls[..|calls| - 1];
      TableIsCapped(front);
      SendKeys(SendAll(front), calls[|calls| - 1]);
    }
  }

  // ------------------------------------------------------------------
  // Clean histories: the report is exactly what is held
  // ------------------------------------------------------------------

  /** Downs of `k` minus ups of `k`. */
  function Net(calls: seq<Call>, k: byte): int {
    if calls == [] then 0
    else
      var c := calls[|calls| - 1];
      Net(calls[..|calls| - 1], k) +
      if c.key != k then 0 else if c.action == Down then 1 else if c.action == Up then -1 else 0
  }

  /** Downs minus ups of all keys that take a slot. */
  function TotalHeld(calls: seq<Call>): int {
    if calls == [] then 0
    else
      var c := calls[|calls| - 1];
      TotalHeld(calls[..|calls| - 1]) + if !KeyEvent(c) then 0 else if c.action == Down then 1 else -1
  }

  /** Every up has an earlier unmatched down, and at most six keys are held at once. */
  predicate Clean(calls: seq<Call>) {
    calls == [] ||
    (var front, c := calls[..|calls| - 1], calls[|calls| - 1];
     && Clean(front)
     && (KeyEvent(c) && c.action == Up ==> Net(front, c.key) > 0)
     && (KeyEvent(c) && c.action == Down ==> TotalHeld(front) < SLOTS))
  }

  /** In a clean history the slots hold each key as often as it is held down. */
  lemma {:induction false} CleanTableIsHeld(calls: seq<Call>, k: byte)
    requires Clean(calls) && k != 0 && !IsModifier(k)
    ensures Keys(SendAll(calls).slots)[k] == Net(calls, k)
    ensures |Keys(SendAll(calls).slots)| == TotalHeld(calls)
  {
    TableIsCapped(calls);
    CleanCapped(calls, k);
  }

  lemma {:induction false} CleanCapped(calls: seq<Call>, k: byte)
    requires Clean(calls) && k != 0 && !IsModifier(k)
    ensures Capped(calls)[k] == Net(calls, k)
    ensures |Capped(calls)| == TotalHeld(calls)
  {
    if calls != [] {
      var front, c := calls[..|calls| - 1], calls[|calls| - 1];
      CleanCapped(front, k);
      if KeyEvent(c) {
        CleanCapped(front, c.key);
      }
    }
  }

  // ------------------------------------------------------------------
  // Modifiers
  // ------------------------------------------------------------------

  predicate HasBit(modifiers: bv8, b: nat) {
    modifiers & BitOf(b) != 0
  }

  /** The last up or down of `key` was a down. */
  predicate LastWasDown(calls: seq<Call>, key: byte) {
    calls != [] &&
    (var c := calls[|calls| - 1];
     if c.key == key && c.action != NoAction then c.action == Down
     else LastWasDown(calls[..|calls| - 1], key))
  }

  lemma SetBit(m: bv8, a: nat, b: nat, on: bool)
    requires b < 8
    ensures HasBit(WithBit(m, a, on), b) <==> if a == b then on else HasBit(m, b)
  {
  }

  lemma ModifierKey(key: byte, b: nat)
    requires b < 8
    ensures IsModifier(key) && key % 16 == b <==> key == 0xE0 + b
  {
  }

  lemma SendBit(h: Hid, c: Call, b: nat)
    requires b < 8
    ensures HasBit(Send(h, c).modifiers, b) <==>
            if c.action != NoAction && c.key == 0xE0 + b then c.action == Down else HasBit(h.modifiers, b)
  {
    ModifierKey(c.key, b);
    SetBit(h.modifiers, c.key % 16, b, c.action == Down);
  }

  /** Modifier bit b is set exactly when the last event of key 0xE0 + b was a down. */
  lemma {:induction false} ModifierIsLastEvent(calls: seq<Call>, b: nat)
    requires b < 8
    ensures HasBit(SendAll(calls).modifiers, b) <==> LastWasDown(calls, 0xE0 + b)
  {
    if calls != [] {
      var front := calls[..|calls| - 1];
      ModifierIsLastEvent(front, b);
      SendBit(SendAll(front), calls[|calls| - 1], b);
    }
  }
}
