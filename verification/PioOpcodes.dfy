/** The instruction words as numbers (RP2040 datasheet, section 3.4). */
module PioOpcodes {
  import opened Words
  import Bits
  import opened PioExpr
  import opened PioResolver
  import opened PioCodec

  /** A side-set and delay field of 0. */
  const PLAIN := Config(false, true, 0, 0, 31, 32)

  function Bare(op: Op<Expr>): Instruction {
    Instruction(op, None, IntValue(0))
  }

  function WordOf(op: Op<Expr>): Encoded {
    Encode(map[], PLAIN, Bare(op))
  }

  /** Without side-set and delay the word is the kind, in bits 13 to 15, and the two arguments. */
  lemma BareWord(op: Op<Expr>, kind: nat, arg1: nat, arg2: nat)
    requires !op.RawWord? && RawEncode(map[], 32, op) == Raw(kind, arg1, arg2)
    requires kind < 8 && arg1 < 8 && arg2 < 32
    ensures WordOf(op) == Word(8192 * kind + 32 * arg1 + arg2)
  {
    PackFields(Raw(kind, arg1, arg2), 0);
  }

  const CONDITIONS: seq<Condition> := [Always, XZero, XNotZero, YZero, YNotZero, XNotY, InputPin, OsrNotEmpty]
  const IN_PLACES: seq<Option<Place>> :=
    [Some(Pins), Some(X), Some(Y), Some(Null), None, Some(Status), Some(Isr), Some(Osr)]
  const OUT_PLACES: seq<Place> := [Pins, X, Y, Null, PinDirs, Pc, Isr, Exec]
  const SET_PLACES: seq<Option<Place>> := [Some(Pins), Some(X), Some(Y), None, Some(PinDirs)]
  const MOV_DESTS: seq<Option<Place>> :=
    [Some(Pins), Some(X), Some(Y), None, Some(Exec), Some(Pc), Some(Isr), Some(Osr)]

  /** jmp: 0x0000, condition in bits 5 to 7. */
  lemma JumpWord(i: nat, target: int32)
    requires i < 8 && 0 <= target < 32
    ensures WordOf(Jmp(CONDITIONS[i], IntValue(target))) == Word(32 * i + target)
  {
    BareWord(Jmp(CONDITIONS[i], IntValue(target)), 0, i, target);
  }

  /** in: 0x4000; out: 0x6000; 32 bits are written as 0. */
  lemma ShiftWords(i: nat, count: int32)
    requires i < 8 && 1 <= count <= 32
    ensures IN_PLACES[i].Some? ==>
              WordOf(In(IN_PLACES[i].value, IntValue(count))) == Word(0x4000 + 32 * i + count % 32)
    ensures WordOf(Out(OUT_PLACES[i], IntValue(count))) == Word(0x6000 + 32 * i + count % 32)
  {
    if IN_PLACES[i].Some? {
      BareWord(In(IN_PLACES[i].value, IntValue(count)), 2, i, count % 32);
    }
    BareWord(Out(OUT_PLACES[i], IntValue(count)), 3, i, count % 32);
  }

  /** set: 0xE000. */
  lemma SetWord(i: nat, value: int32)
    requires i < |SET_PLACES| && SET_PLACES[i].Some? && 0 <= value < 32
    ensures WordOf(Set(SET_PLACES[i].value, IntValue(value))) == Word(0xE000 + 32 * i + value)
  {
    BareWord(Set(SET_PLACES[i].value, IntValue(value)), 7, i, value);
  }

  /** push: 0x8000; 0x40 for the threshold, 0x20 for blocking. */
  lemma PushWord(threshold: bool, block: bool)
    ensures WordOf(Push(threshold, block)) ==
            Word(0x8000 + (if threshold then 0x40 else 0) + (if block then 0x20 else 0))
  {
    FlagsOr(threshold, block);
    BareWord(Push(threshold, block), 4, Flag(threshold, 2) + Flag(block, 1), 0);
  }

  /** pull: 0x8080, with the same flags. */
  lemma PullWord(threshold: bool, block: bool)
    ensures WordOf(Pull(threshold, block)) ==
            Word(0x8080 + (if threshold then 0x40 else 0) + (if block then 0x20 else 0))
  {
    FlagsOr(threshold, block);
    BareWord(Pull(threshold, block), 4, 4 + Flag(threshold, 2) + Flag(block, 1), 0);
  }

  lemma MovCodes(i: nat)
    requires i < 8
    ensures MOV_DESTS[i].Some? ==> MovPlaceCode(MOV_DESTS[i].value) == i
    ensures IN_PLACES[i].Some? ==> MovPlaceCode(IN_PLACES[i].value) == i
  {
  }

  /** mov: 0xA000; destination in bits 5 to 7, operation in bits 3 and 4, source in bits 0 to 2. */
  lemma MovWord(i: nat, j: nat, mop: MovOp)
    requires i < 8 && j < 8 && MOV_DESTS[i].Some? && IN_PLACES[j].Some?
    ensures WordOf(Mov(MOV_DESTS[i].value, mop, IN_PLACES[j].value)) ==
            Word(0xA000 + 32 * i + (match mop case Plain => 0 case Invert => 8 case BitReverse => 16) + j)
  {
    MovCodes(i);
    MovCodes(j);
    MovWordOf(MOV_DESTS[i].value, IN_PLACES[j].value, mop, i, j);
  }

  lemma MovWordOf(dest: Place, src: Place, mop: MovOp, i: nat, j: nat)
    requires i < 8 && j < 8 && MovPlaceCode(dest) == i && MovPlaceCode(src) == j
    ensures WordOf(Mov(dest, mop, src)) ==
            Word(0xA000 + 32 * i + (match mop case Plain => 0 case Invert => 8 case BitReverse => 16) + j)
  {
    var o := MovOpCode(mop);
    MovFieldIsSum(o, j);
    BareWord(Mov(dest, mop, src), 5, i, 8 * o + j);
  }

  /** nop is mov y, y. */
  lemma NopWord()
    ensures WordOf(Nop) == Word(0xA042)
  {
    BareWord(Nop, 5, 2, 2);
  }

  /** irq: 0xC000; 0x20 waits, 0x40 clears, 0x10 is relative. */
  lemma IrqWord(mode: IrqMode, n: int32, rel: bool)
    requires 0 <= n < 8
    ensures WordOf(RaiseIrq(mode, IntValue(n), rel)) ==
            Word(0xC000 + (match mode case NoWait => 0 case Wait => 0x20 case Clear => 0x40)
                 + (if rel then 0x10 else 0) + n)
  {
    IrqFieldIsSum(n, rel);
    BareWord(RaiseIrq(mode, IntValue(n), rel), 6, IrqCode(mode), Flag(rel, 16) + n);
  }

  /** wait gpio: 0x2000; 0x80 for polarity 1. */
  lemma WaitGpioWord(p: int32, n: int32)
    requires 0 <= p <= 1 && 0 <= n < 32
    ensures WordOf(WaitFor(IntValue(p), Gpio(IntValue(n)))) == Word(0x2000 + 128 * p + n)
  {
    PolarityField(p, 0);
    OrLow(n);
    BareWord(WaitFor(IntValue(p), Gpio(IntValue(n))), 1, 4 * p, n);
  }

  /** wait pin: 0x2020. */
  lemma WaitPinWord(p: int32, n: int32)
    requires 0 <= p <= 1 && 0 <= n < 32
    ensures WordOf(WaitFor(IntValue(p), Pin(IntValue(n)))) == Word(0x2020 + 128 * p + n)
  {
    PolarityField(p, 1);
    OrLow(n);
    BareWord(WaitFor(IntValue(p), Pin(IntValue(n))), 1, 4 * p + 1, n);
  }

  /** wait irq: 0x2040; 0x10 is relative. */
  lemma WaitIrqWord(p: int32, n: int32, rel: bool)
    requires 0 <= p <= 1 && 0 <= n < 8
    ensures WordOf(WaitFor(IntValue(p), Irq(IntValue(n), rel))) ==
            Word(0x2040 + 128 * p + (if rel then 0x10 else 0) + n)
  {
    PolarityField(p, 2);
    IrqFieldIsSum(n, rel);
    BareWord(WaitFor(IntValue(p), Irq(IntValue(n), rel)), 1, 4 * p + 2, Flag(rel, 16) + n);
  }

  /** With side-set and delay: bits 8 to 12 hold the flag, the side-set value above the delay, and the delay. */
  lemma FullWord(env: Env, cfg: Config, inst: Instruction)
    requires Finalized(cfg) && Admissible(cfg, inst) && !inst.op.RawWord? && Encode(env, cfg, inst).Word?
    ensures var raw, delay := RawEncode(env, cfg.length, inst.op), Val(env, inst.delay);
            var side := if inst.side.None? then 0
                        else (if cfg.opt then 16 else 0) + Val(env, inst.side.value) * Bits.Pow2(5 - cfg.bits);
            && raw.Raw?
            && Encode(env, cfg, inst).w == 8192 * raw.kind + 256 * (side + delay) + 32 * raw.arg1 + raw.arg2
  {
    var raw, delay := RawEncode(env, cfg.length, inst.op), Val(env, inst.delay);
    RawEncodeDecodes(env, cfg.length, inst.op);
    if inst.side.None? {
      PlainField(cfg, delay);
      PackFields(raw, delay);
    } else {
      var side := Val(env, inst.side.value);
      SharedField(cfg, side, delay);
      SideFieldIsSum(cfg, side, delay);
      PackFields(raw, SideField(cfg, side, delay));
    }
  }

  /** The words that mean nothing. */
  lemma ReservedIff(w: nat, bits: nat, opt: bool)
    requires w < 0x1_0000 && bits <= 5
    ensures var arg1, arg2 := (w / 32) % 8, w % 32;
            Disassemble(w, bits, opt) == Reserved <==>
            match w / 8192
            case 1 => arg1 % 4 == 2 && (arg2 / 8) % 2 == 1
            case 2 => arg1 == 4
            case 4 => arg2 != 0
            case 5 => arg1 == 3 || arg2 % 8 == 4 || arg2 >= 24
            case 6 => arg1 >= 4 || (arg2 / 8) % 2 == 1
            case 7 => arg1 == 3 || arg1 >= 5
            case _ => false
  {
  }

  /** `.word` is written as it is, if it has a value of 16 bits. */
  lemma WordDirective(env: Env, cfg: Config, value: Expr, side: Option<Expr>, delay: Expr)
    requires cfg.bits <= 5
    ensures var o, e := Resolved(env, {}, value), Encode(env, cfg, Instruction(RawWord(value), side, delay));
            if o.Value? && 0 <= o.v < 0x1_0000 then e == Word(o.v) else e.Rejected?
  {
  }
}
