/** Instruction encoding of the PIO assembler and its disassembler (RP2040 datasheet, section 3.4). */
module PioCodec {
  import opened Words
  import Bits
  import opened PioExpr
  import opened PioResolver

  datatype Condition = Always | XZero | XNotZero | YZero | YNotZero | XNotY | InputPin | OsrNotEmpty
  datatype Place = Pins | X | Y | Null | PinDirs | Status | Pc | Isr | Osr | Exec
  datatype MovOp = Plain | Invert | BitReverse
  datatype IrqMode = NoWait | Wait | Clear

  /** `NoSource` is what the disassembler prints for the unused source number 3. */
  datatype Source<+V> = Gpio(pin: V) | Pin(pin: V) | Irq(num: V, rel: bool) | NoSource

  /** An instruction; `V` is Expr before resolution and int after. */
  datatype Op<+V> =
    | Jmp(cond: Condition, target: V)
    | WaitFor(polarity: V, source: Source<V>)
    | In(src: Place, count: V)
    | Out(dest: Place, count: V)
    | Push(ifFull: bool, block: bool)
    | Pull(ifEmpty: bool, block: bool)
    | Mov(dest: Place, mop: MovOp, src: Place)
    | RaiseIrq(mode: IrqMode, num: V, rel: bool)
    | Set(dest: Place, value: V)
    | Nop
    | RawWord(value: V)

  datatype Instruction = Instruction(op: Op<Expr>, side: Option<Expr>, delay: Expr)

  /** Operands the grammar lets through. */
  predicate WellFormed(op: Op<Expr>) {
    match op
    case WaitFor(_, source) => !source.NoSource?
    case In(src, _) => src in {Pins, X, Y, Null, Status, Isr, Osr}
    case Out(dest, _) => dest in {Pins, X, Y, Null, PinDirs, Pc, Isr, Exec}
    case Mov(dest, _, src) => dest in {Pins, X, Y, Exec, Pc, Isr, Osr} && src in {Pins, X, Y, Null, Status, Isr, Osr}
    case Set(dest, _) => dest in {Pins, X, Y, PinDirs}
    case _ => true
  }

  // ------------------------------------------------------------------
  // Bitwise or on non-negative numbers
  // ------------------------------------------------------------------

  function BitOr(a: nat, b: nat): nat
    decreases a + b
  {
    if a == 0 && b == 0 then 0
    else 2 * BitOr(a / 2, b / 2) + if a % 2 == 1 || b % 2 == 1 then 1 else 0
  }

  lemma {:induction false} OrZero(a: nat)
    ensures BitOr(a, 0) == a
  {
    if a > 0 {
      OrZero(a / 2);
    }
  }

  /** A number shifted left by `k`, or'ed with one below 2^k, has no bit in common with it. */
  lemma {:induction false} OrShifted(m: nat, k: nat, b: nat)
    requires b < Bits.Pow2(k)
    ensures BitOr(m * Bits.Pow2(k), b) == m * Bits.Pow2(k) + b
    decreases k
  {
    if k == 0 {
      OrZero(m);
    } else {
      Bits.Double(m, Bits.Pow2(k - 1));
      OrShifted(m, k - 1, b / 2);
    }
  }

  lemma OrAt(m: nat, k: nat, p: nat, b: nat)
    requires p == Bits.Pow2(k) && b < p
    ensures BitOr(m * p, b) == m * p + b
  {
    OrShifted(m, k, b);
  }

  lemma Powers()
    ensures Bits.Pow2(0) == 1 && Bits.Pow2(1) == 2 && Bits.Pow2(2) == 4 && Bits.Pow2(3) == 8
    ensures Bits.Pow2(4) == 16 && Bits.Pow2(5) == 32 && Bits.Pow2(8) == 256 && Bits.Pow2(13) == 8192
  {
  }

  // ------------------------------------------------------------------
  // Encoding
  // ------------------------------------------------------------------

  function ConditionCode(c: Condition): nat {
    match c
    case Always => 0 case XZero => 1 case XNotZero => 2 case YZero => 3
    case YNotZero => 4 case XNotY => 5 case InputPin => 6 case OsrNotEmpty => 7
  }

  /** The numbers of the in/out/set and of the mov operands; 5 and 7 mean different places. */
  function PlaceCode(p: Place): nat {
    match p
    case Pins => 0 case X => 1 case Y => 2 case Null => 3 case PinDirs => 4
    case Status => 5 case Pc => 5 case Isr => 6 case Osr => 7 case Exec => 7
  }

  function MovPlaceCode(p: Place): nat {
    if p == Exec then 4 else PlaceCode(p)
  }

  function MovOpCode(op: MovOp): nat {
    match op case Plain => 0 case Invert => 1 case BitReverse => 2
  }

  function IrqCode(m: IrqMode): nat {
    match m case NoWait => 0 case Wait => 1 case Clear => 2
  }

  datatype Rejection = Unresolved(o: Outcome) | OutOfRange
  datatype Raw = Raw(kind: nat, arg1: nat, arg2: nat) | RawError(why: Rejection)
  datatype Encoded = Word(w: nat) | Rejected(why: Rejection)

  /** How side-set and delay share their five bits in a finalized program of `length` instructions. */
  datatype Config = Config(declared: bool, opt: bool, bits: nat, sidesetMax: nat, delayMax: nat, length: nat)

  function RawEncode(env: Env, length: nat, op: Op<Expr>): Raw {
    match op
    case Jmp(cond, target) =>
      var t := Resolved(env, {}, target);
      if !t.Value? then RawError(Unresolved(t))
      else if t.v < 0 || t.v >= length then RawError(OutOfRange)
      else Raw(0, ConditionCode(cond), t.v)
    case WaitFor(polarity, source) =>
      var p := Resolved(env, {}, polarity);
      if !p.Value? then RawError(Unresolved(p))
      else if p.v < 0 || p.v > 1 || source.NoSource? then RawError(OutOfRange)
      else
        var n := Resolved(env, {}, if source.Irq? then source.num else source.pin);
        if !n.Value? then RawError(Unresolved(n))
        else if n.v < 0 || n.v > (if source.Irq? then 7 else 31) then RawError(OutOfRange)
        else
          var kind := if source.Gpio? then 0 else if source.Pin? then 1 else 2;
          Raw(1, BitOr(p.v * 4, kind), BitOr(Flag(source.Irq? && source.rel, 16), n.v))
    case In(src, count) => RawCount(env, 2, src, count)
    case Out(dest, count) => RawCount(env, 3, dest, count)
    case Push(ifFull, block) => Raw(4, BitOr(Flag(ifFull, 2), Flag(block, 1)), 0)
    case Pull(ifEmpty, block) => Raw(4, BitOr(4, BitOr(Flag(ifEmpty, 2), Flag(block, 1))), 0)
    case Mov(dest, mop, src) => Raw(5, MovPlaceCode(dest), BitOr(MovOpCode(mop) * 8, MovPlaceCode(src)))
    case RaiseIrq(mode, num, rel) =>
      var n := Resolved(env, {}, num);
      if !n.Value? then RawError(Unresolved(n))
      else if n.v < 0 || n.v > 7 then RawError(OutOfRange)
      else Raw(6, IrqCode(mode), BitOr(Flag(rel, 16), n.v))
    case Set(dest, value) =>
      var n := Resolved(env, {}, value);
      if !n.Value? then RawError(Unresolved(n))
      else if n.v < 0 || n.v > 31 then RawError(OutOfRange)
      else Raw(7, PlaceCode(dest), n.v)
    case Nop => Raw(5, MovPlaceCode(Y), MovPlaceCode(Y))
    case RawWord(_) => RawError(OutOfRange)
  }

  /** A bit count from 1 to 32; 32 is stored as 0. */
  function RawCount(env: Env, kind: nat, place: Place, count: Expr): Raw {
    var n := Resolved(env, {}, count);
    if !n.Value? then RawError(Unresolved(n))
    else if n.v < 1 || n.v > 32 then RawError(OutOfRange)
    else Raw(kind, PlaceCode(place), n.v % 32)
  }

  function Encode(env: Env, cfg: Config, inst: Instruction): Encoded
    requires cfg.bits <= 5
  {
    if inst.op.RawWord? then
      var n := Resolved(env, {}, inst.op.value);
      if !n.Value? then Rejected(Unresolved(n))
      else if n.v < 0 || n.v > 0xffff then Rejected(OutOfRange)
      else Word(n.v)
    else
      var raw := RawEncode(env, cfg.length, inst.op);
      if raw.RawError? then Rejected(raw.why)
      else
        var delay := Resolved(env, {}, inst.delay);
        if !delay.Value? then Rejected(Unresolved(delay))
        else if delay.v < 0 || delay.v > cfg.delayMax then Rejected(OutOfRange)
        else if inst.side.None? then Word(Pack(raw, delay.v))
        else
          var side := Resolved(env, {}, inst.side.value);
          if !side.Value? then Rejected(Unresolved(side))
          else if side.v < 0 || side.v > cfg.sidesetMax then Rejected(OutOfRange)
          else Word(Pack(raw, BitOr(BitOr(Flag(cfg.opt, 16), side.v * Bits.Pow2(5 - cfg.bits)), delay.v)))
  }

  function Pack(raw: Raw, field: nat): nat
    requires raw.Raw?
  {
    BitOr(BitOr(BitOr(raw.kind * 8192, field * 256), raw.arg1 * 32), raw.arg2)
  }

  // ------------------------------------------------------------------
  // Disassembly
  // ------------------------------------------------------------------

  datatype Shown = Reserved | Shown(op: Op<int>, side: Option<int>, delay: int)

  function ConditionOf(code: nat): Condition
    requires code < 8
  {
    match code
    case 0 => Always case 1 => XZero case 2 => XNotZero case 3 => YZero
    case 4 => YNotZero case 5 => XNotY case 6 => InputPin case _ => OsrNotEmpty
  }

  function InPlace(code: nat): Option<Place>
    requires code < 8
  {
    match code
    case 0 => Some(Pins) case 1 => Some(X) case 2 => Some(Y) case 3 => Some(Null)
    case 4 => None case 5 => Some(Status) case 6 => Some(Isr) case _ => Some(Osr)
  }

  function OutPlace(code: nat): Place
    requires code < 8
  {
    match code
    case 0 => Pins case 1 => X case 2 => Y case 3 => Null
    case 4 => PinDirs case 5 => Pc case 6 => Isr case _ => Exec
  }

  function MovDest(code: nat): Option<Place>
    requires code < 8
  {
    match code
    case 0 => Some(Pins) case 1 => Some(X) case 2 => Some(Y) case 3 => None
    case 4 => Some(Exec) case 5 => Some(Pc) case 6 => Some(Isr) case _ => Some(Osr)
  }

  function SetDest(code: nat): Option<Place>
    requires code < 8
  {
    match code
    case 0 => Some(Pins) case 1 => Some(X) case 2 => Some(Y) case 3 => None
    case 4 => Some(PinDirs) case 5 => None case 6 => None case _ => None
  }

  function MovOpOf(code: nat): MovOp {
    match code case 0 => Plain case 1 => Invert case _ => BitReverse
  }

  function CountOf(field: nat): int {
    if field == 0 then 32 else field
  }

  /** A plain move of x or y to itself is shown as a nop. */
  function DecodeMov(destCode: nat, srcCode: nat, operation: nat): Option<Op<int>>
    requires destCode < 8 && srcCode < 8
  {
    var dest, src := MovDest(destCode), InPlace(srcCode);
    if src.None? || dest.None? || operation == 3 then None
    else if dest == src && operation == 0 && (destCode == 1 || srcCode == 2) then Some(Nop)
    else Some(Mov(dest.value, MovOpOf(operation), src.value))
  }

  /** The instruction in the low and high fields of a word; None when it is reserved. */
  function DecodeOp(major: nat, arg1: nat, arg2: nat): Option<Op<int>>
    requires major < 8 && arg1 < 8 && arg2 < 32
  {
    match major
    case 0 => Some(Jmp(ConditionOf(arg1), arg2))
    case 1 =>
      var polarity := arg1 / 4;
      (match arg1 % 4
       case 0 => Some(WaitFor(polarity, Gpio(arg2)))
       case 1 => Some(WaitFor(polarity, Pin(arg2)))
       case 2 => if (arg2 / 8) % 2 == 1 then None else Some(WaitFor(polarity, Irq(arg2 % 8, arg2 / 16 == 1)))
       case _ => Some(WaitFor(polarity, NoSource)))
    case 2 => if InPlace(arg1).None? then None else Some(In(InPlace(arg1).value, CountOf(arg2)))
    case 3 => Some(Out(OutPlace(arg1), CountOf(arg2)))
    case 4 =>
      var flag, block := (arg1 / 2) % 2 == 1, arg1 % 2 == 1;
      if arg2 != 0 then None else if arg1 / 4 == 1 then Some(Pull(flag, block)) else Some(Push(flag, block))
    case 5 => DecodeMov(arg1, arg2 % 8, arg2 / 8)
    case 6 =>
      if arg1 / 4 == 1 || (arg2 / 8) % 2 == 1 then None
      else
        var mode := if (arg1 / 2) % 2 == 1 then Clear else if arg1 % 2 == 1 then Wait else NoWait;
        Some(RaiseIrq(mode, arg2 % 8, arg2 / 16 == 1))
    case _ => if SetDest(arg1).None? then None else Some(Set(SetDest(arg1).value, arg2))
  }

  /** The disassembler, for a program with `bits` side-set bits including the optional flag. */
  function Disassemble(w: nat, bits: nat, opt: bool): Shown
    requires w < 0x1_0000 && bits <= 5
  {
    var op := DecodeOp(w / 8192, (w / 32) % 8, w % 32);
    if op.None? then Reserved
    else
      var field := (w / 256) % 32;
      var side :=
        if bits != 0 && (!opt || field / 16 == 1)
        then Some((field % (if opt then 16 else 32)) / Bits.Pow2(5 - bits)) else None;
      Shown(op.value, side, field % Bits.Pow2(5 - bits))
  }

  // ------------------------------------------------------------------
  // What an instruction denotes
  // ------------------------------------------------------------------

  /** The value of an operand that resolves. */
  function Val(env: Env, e: Expr): int {
    var o := Resolved(env, {}, e);
    if o.Value? then o.v else 0
  }

  /** The instruction with its operands resolved; a plain move of x or y to itself is a nop. */
  function Denoted(env: Env, op: Op<Expr>): Op<int> {
    match op
    case Jmp(cond, target) => Jmp(cond, Val(env, target))
    case WaitFor(polarity, Gpio(pin)) => WaitFor(Val(env, polarity), Gpio(Val(env, pin)))
    case WaitFor(polarity, Pin(pin)) => WaitFor(Val(env, polarity), Pin(Val(env, pin)))
    case WaitFor(polarity, Irq(num, rel)) => WaitFor(Val(env, polarity), Irq(Val(env, num), rel))
    case WaitFor(polarity, NoSource) => WaitFor(Val(env, polarity), NoSource)
    case In(src, count) => In(src, Val(env, count))
    case Out(dest, count) => Out(dest, Val(env, count))
    case Push(ifFull, block) => Push(ifFull, block)
    case Pull(ifEmpty, block) => Pull(ifEmpty, block)
    case Mov(dest, mop, src) => if mop == Plain && dest == src && dest in {X, Y} then Nop else Mov(dest, mop, src)
    case RaiseIrq(mode, num, rel) => RaiseIrq(mode, Val(env, num), rel)
    case Set(dest, value) => Set(dest, Val(env, value))
    case Nop => Nop
    case RawWord(value) => RawWord(Val(env, value))
  }

  /** The side-set width and flag that accompany the words of a program to the disassembler. */
  function ShownBits(cfg: Config): nat {
    if cfg.declared then cfg.bits else 0
  }

  function ShownOpt(cfg: Config): bool {
    cfg.declared && cfg.opt
  }

  /** The configurations that `finalize` leaves. */
  predicate Finalized(cfg: Config) {
    && cfg.bits <= 5 && cfg.length <= 32
    && (cfg.declared ==>
          && (cfg.opt ==> cfg.bits >= 1)
          && cfg.sidesetMax == Bits.Pow2(cfg.bits - Flag(cfg.opt, 1)) - 1
          && cfg.delayMax == Bits.Pow2(5 - cfg.bits) - 1)
    && (!cfg.declared ==> cfg.opt && cfg.bits == 0 && cfg.sidesetMax == 0 && cfg.delayMax == 31)
  }

  /** The instructions `add_instruction` accepts, with `side` only where `.side_set` was given. */
  predicate Admissible(cfg: Config, inst: Instruction) {
    && WellFormed(inst.op)
    && (!cfg.opt ==> inst.side.Some?)
    && (inst.side.Some? ==> cfg.declared)
  }

  // ------------------------------------------------------------------
  // Disassembling inverts encoding
  // ------------------------------------------------------------------

  /** The three fields fit, and decode to what the instruction denotes. */
  predicate RawDecodes(env: Env, op: Op<Expr>, raw: Raw) {
    raw.Raw? ==>
      && raw.kind < 8 && raw.arg1 < 8 && raw.arg2 < 32
      && DecodeOp(raw.kind, raw.arg1, raw.arg2) == Some(Denoted(env, op))
  }

  /** The irq operand field: a number below 8, and 16 for a relative one. */
  lemma IrqFieldIsSum(n: nat, rel: bool)
    requires n < 8
    ensures BitOr(Flag(rel, 16), n) == Flag(rel, 16) + n
  {
    Powers();
    if rel {
      OrAt(1, 4, 16, n);
    } else {
      OrLow(n);
    }
  }

  lemma IrqField(n: nat, rel: bool)
    requires n < 8
    ensures var f := Flag(rel, 16) + n;
            f < 32 && (f / 8) % 2 == 0 && f % 8 == n && (f / 16 == 1 <==> rel)
  {
  }

  lemma PolarityField(p: nat, kind: nat)
    requires p < 2 && kind < 3
    ensures BitOr(p * 4, kind) == 4 * p + kind
    ensures (4 * p + kind) / 4 == p && (4 * p + kind) % 4 == kind
  {
    Powers();
    OrAt(p, 2, 4, kind);
  }

  lemma OrLow(n: nat)
    ensures BitOr(0, n) == n
    decreases n
  {
    if n > 0 {
      OrLow(n / 2);
    }
  }

  /** The packed fields of a wait with resolved operands. */
  lemma WaitFields(p: nat, n: nat, source: Source<int>)
    requires p < 2 && n < (if source.Irq? then 8 else 32)
    requires !source.NoSource? && n == if source.Irq? then source.num else source.pin
    ensures var kind := if source.Gpio? then 0 else if source.Pin? then 1 else 2;
            var arg1, arg2 := BitOr(p * 4, kind), BitOr(Flag(source.Irq? && source.rel, 16), n);
            arg1 < 8 && arg2 < 32 && DecodeOp(1, arg1, arg2) == Some(WaitFor(p, source))
  {
    var kind := if source.Gpio? then 0 else if source.Pin? then 1 else 2;
    PolarityField(p, kind);
    if source.Irq? {
      IrqFieldIsSum(n, source.rel);
      IrqField(n, source.rel);
      DecodeWaitIrq(p, n, source.rel);
    } else {
      OrLow(n);
      DecodeWaitPin(p, kind, n);
    }
  }

  lemma WaitDecodes(env: Env, length: nat, op: Op<Expr>)
    requires op.WaitFor? && WellFormed(op)
    ensures RawDecodes(env, op, RawEncode(env, length, op))
  {
    if RawEncode(env, length, op).Raw? {
      var source := op.source;
      var p, n := Val(env, op.polarity), Val(env, if source.Irq? then source.num else source.pin);
      WaitFields(p, n, Denoted(env, op).source);
    }
  }

  lemma DecodeWaitIrq(p: nat, n: nat, rel: bool)
    requires p < 2 && n < 8
    ensures DecodeOp(1, 4 * p + 2, Flag(rel, 16) + n) == Some(WaitFor(p, Irq(n, rel)))
  {
    PolarityField(p, 2);
    IrqField(n, rel);
  }

  lemma DecodeWaitPin(p: nat, kind: nat, n: nat)
    requires p < 2 && kind < 2 && n < 32
    ensures DecodeOp(1, 4 * p + kind, n) == Some(WaitFor(p, if kind == 0 then Gpio(n) else Pin(n)))
  {
    PolarityField(p, kind);
  }

  lemma DecodeIrq(mode: IrqMode, n: nat, rel: bool)
    requires n < 8
    ensures DecodeOp(6, IrqCode(mode), Flag(rel, 16) + n) == Some(RaiseIrq(mode, n, rel))
  {
    IrqField(n, rel);
  }

  lemma IrqDecodes(env: Env, length: nat, op: Op<Expr>)
    requires op.RaiseIrq?
    ensures RawDecodes(env, op, RawEncode(env, length, op))
  {
    if RawEncode(env, length, op).Raw? {
      IrqFieldIsSum(Val(env, op.num), op.rel);
      IrqField(Val(env, op.num), op.rel);
      DecodeIrq(op.mode, Val(env, op.num), op.rel);
    }
  }

  lemma FlagsOr(high: bool, low: bool)
    ensures BitOr(Flag(high, 2), Flag(low, 1)) == Flag(high, 2) + Flag(low, 1)
    ensures BitOr(4, Flag(high, 2) + Flag(low, 1)) == 4 + Flag(high, 2) + Flag(low, 1)
  {
    Powers();
    OrAt(Flag(high, 1), 1, 2, Flag(low, 1));
    OrAt(1, 2, 4, Flag(high, 2) + Flag(low, 1));
  }

  lemma DecodeFifo(high: bool, low: bool)
    ensures DecodeOp(4, Flag(high, 2) + Flag(low, 1), 0) == Some(Push(high, low))
    ensures DecodeOp(4, 4 + Flag(high, 2) + Flag(low, 1), 0) == Some(Pull(high, low))
  {
    if high {
      if low {
      } else {
      }
    } else if low {
    } else {
    }
  }

  lemma FifoDecodes(env: Env, length: nat, op: Op<Expr>)
    requires op.Push? || op.Pull?
    ensures RawDecodes(env, op, RawEncode(env, length, op))
  {
    var high, low := if op.Push? then op.ifFull else op.ifEmpty, op.block;
    FlagsOr(high, low);
    DecodeFifo(high, low);
  }

  lemma MovFieldSplits(o: nat, s: nat)
    requires o < 3 && s < 8
    ensures (8 * o + s) % 8 == s && (8 * o + s) / 8 == o && 8 * o + s < 32
  {
  }

  lemma MovFieldIsSum(o: nat, s: nat)
    requires s < 8
    ensures BitOr(o * 8, s) == 8 * o + s
  {
    Powers();
    OrAt(o, 3, 8, s);
  }

  lemma MovPlaces(dest: Place, mop: MovOp, src: Place)
    requires dest in {Pins, X, Y, Exec, Pc, Isr, Osr} && src in {Pins, X, Y, Null, Status, Isr, Osr}
    ensures MovPlaceCode(dest) < 8 && MovPlaceCode(src) < 8
    ensures DecodeMov(MovPlaceCode(dest), MovPlaceCode(src), MovOpCode(mop)) ==
            Some(if mop == Plain && dest == src && dest in {X, Y} then Nop else Mov(dest, mop, src))
  {
    assert MovDest(MovPlaceCode(dest)) == Some(dest);
    assert InPlace(MovPlaceCode(src)) == Some(src);
  }

  lemma MovDecodes(env: Env, length: nat, op: Op<Expr>)
    requires op.Mov? && WellFormed(op)
    ensures RawDecodes(env, op, RawEncode(env, length, op))
  {
    MovPlaces(op.dest, op.mop, op.src);
    MovFieldIsSum(MovOpCode(op.mop), MovPlaceCode(op.src));
    MovFieldSplits(MovOpCode(op.mop), MovPlaceCode(op.src));
  }

  lemma JumpDecodes(env: Env, length: nat, op: Op<Expr>)
    requires op.Jmp? && length <= 32
    ensures RawDecodes(env, op, RawEncode(env, length, op))
  {
  }

  lemma CountDecodes(env: Env, length: nat, op: Op<Expr>)
    requires WellFormed(op) && (op.In? || op.Out?)
    ensures RawDecodes(env, op, RawEncode(env, length, op))
  {
  }

  lemma PlainOperandDecodes(env: Env, length: nat, op: Op<Expr>)
    requires WellFormed(op) && length <= 32
    requires op.Jmp? || op.In? || op.Out? || op.Set? || op.Nop? || op.RawWord?
    ensures RawDecodes(env, op, RawEncode(env, length, op))
  {
    match op
    case Jmp(_, _) => JumpDecodes(env, length, op);
    case In(_, _) => CountDecodes(env, length, op);
    case Out(_, _) => CountDecodes(env, length, op);
    case _ =>
  }

  lemma RawEncodeDecodes(env: Env, length: nat, op: Op<Expr>)
    requires WellFormed(op) && length <= 32
    ensures RawDecodes(env, op, RawEncode(env, length, op))
  {
    match op
    case WaitFor(_, _) => WaitDecodes(env, length, op);
    case RaiseIrq(_, _, _) => IrqDecodes(env, length, op);
    case Push(_, _) => FifoDecodes(env, length, op);
    case Pull(_, _) => FifoDecodes(env, length, op);
    case Mov(_, _, _) => MovDecodes(env, length, op);
    case _ => PlainOperandDecodes(env, length, op);
  }

  lemma OrAt8192(m: nat, b: nat)
    requires b < 8192
    ensures BitOr(m * 8192, b) == m * 8192 + b
  {
    Powers();
    OrAt(m, 13, 8192, b);
  }

  lemma OrAt256(m: nat, b: nat)
    requires b < 256
    ensures BitOr(m * 256, b) == m * 256 + b
  {
    Powers();
    OrAt(m, 8, 256, b);
  }

  lemma OrAt32(m: nat, b: nat)
    requires b < 32
    ensures BitOr(m * 32, b) == m * 32 + b
  {
    Powers();
    OrAt(m, 5, 32, b);
  }

  /** The fields of a packed word can be taken apart again. */
  lemma PackFields(raw: Raw, field: nat)
    requires raw.Raw? && raw.kind < 8 && raw.arg1 < 8 && raw.arg2 < 32 && field < 32
    ensures Pack(raw, field) == 8192 * raw.kind + 256 * field + 32 * raw.arg1 + raw.arg2
  {
    var a, b, c, d := raw.kind, field, raw.arg1, raw.arg2;
    OrAt8192(a, b * 256);
    OrAt256(32 * a + b, c * 32);
    OrAt32(256 * a + 8 * b + c, d);
  }

  lemma FieldsOf(kind: nat, field: nat, arg1: nat, arg2: nat)
    requires kind < 8 && arg1 < 8 && arg2 < 32 && field < 32
    ensures var w := 8192 * kind + 256 * field + 32 * arg1 + arg2;
            w < 0x1_0000 && w / 8192 == kind && (w / 256) % 32 == field && (w / 32) % 8 == arg1 && w % 32 == arg2
  {
    var w := 8192 * kind + 256 * field + 32 * arg1 + arg2;
    assert w / 256 == 32 * kind + field;
    assert w / 32 == 256 * kind + 8 * field + arg1;
  }

  /** The five bits that hold the optional flag, the side-set value and the delay. */
  function SideField(cfg: Config, side: nat, delay: nat): nat
    requires cfg.bits <= 5
  {
    BitOr(BitOr(Flag(cfg.opt, 16), side * Bits.Pow2(5 - cfg.bits)), delay)
  }

  lemma SideFieldIsSum(cfg: Config, side: nat, delay: nat)
    requires Finalized(cfg) && cfg.declared && side <= cfg.sidesetMax && delay <= cfg.delayMax
    ensures SideField(cfg, side, delay) == Flag(cfg.opt, 16) + side * Bits.Pow2(5 - cfg.bits) + delay
    ensures side * Bits.Pow2(5 - cfg.bits) + delay < if cfg.opt then 16 else 32
  {
    if cfg.opt {
      OptionalFieldIsSum(cfg.bits, side, delay);
    } else {
      PlainFieldIsSum(cfg.bits, side, delay);
    }
  }

  lemma OptionalFieldIsSum(bits: nat, side: nat, delay: nat)
    requires 1 <= bits <= 5 && side < Bits.Pow2(bits - 1) && delay < Bits.Pow2(5 - bits)
    ensures var x := side * Bits.Pow2(5 - bits);
            x + delay < 16 && BitOr(BitOr(16, x), delay) == 16 + x + delay
  {
    var k := 5 - bits;
    assert Bits.Pow2(4) == 16;
    SplitPowers(bits - 1, k, side);
    OrAt(1, 4, 16, side * Bits.Pow2(k));
    OrShifted(Bits.Pow2(bits - 1) + side, k, delay);
  }

  lemma PlainFieldIsSum(bits: nat, side: nat, delay: nat)
    requires bits <= 5 && side < Bits.Pow2(bits) && delay < Bits.Pow2(5 - bits)
    ensures var x := side * Bits.Pow2(5 - bits);
            x + delay < 32 && BitOr(BitOr(0, x), delay) == x + delay
  {
    PlainFieldFits(bits, 5 - bits, side);
    PlainFieldOr(5 - bits, side, delay);
  }

  lemma PlainFieldFits(bits: nat, k: nat, side: nat)
    requires bits + k == 5 && side < Bits.Pow2(bits)
    ensures side * Bits.Pow2(k) + Bits.Pow2(k) <= 32
  {
    SplitPowers(bits, k, side);
    assert Bits.Pow2(5) == 32;
  }

  lemma PlainFieldOr(k: nat, side: nat, delay: nat)
    requires delay < Bits.Pow2(k)
    ensures BitOr(BitOr(0, side * Bits.Pow2(k)), delay) == side * Bits.Pow2(k) + delay
  {
    OrLow(side * Bits.Pow2(k));
    OrShifted(side, k, delay);
  }

  lemma {:induction false} PowersAdd(a: nat, b: nat)
    ensures Bits.Pow2(a) * Bits.Pow2(b) == Bits.Pow2(a + b)
  {
    if a > 0 {
      PowersAdd(a - 1, b);
      Bits.Double(Bits.Pow2(b), Bits.Pow2(a - 1));
    }
  }

  lemma SplitPowers(a: nat, b: nat, side: nat)
    requires side <= Bits.Pow2(a) - 1
    ensures Bits.Pow2(a) * Bits.Pow2(b) == Bits.Pow2(a + b)
    ensures side * Bits.Pow2(b) + Bits.Pow2(b) <= Bits.Pow2(a + b)
    ensures (Bits.Pow2(a) + side) * Bits.Pow2(b) == Bits.Pow2(a + b) + side * Bits.Pow2(b)
  {
    var p, q := Bits.Pow2(a), Bits.Pow2(b);
    PowersAdd(a, b);
    ProductMonotone(side + 1, p, q);
    Distribute(side, 1, q);
    Distribute(p, side, q);
  }

  lemma ProductMonotone(x: nat, p: nat, q: nat)
    requires x <= p
    ensures x * q <= p * q
  {
  }

  /** Reading the shared field back gives the side-set value and the delay. */
  lemma SideFieldSplits(x: nat, side: nat, q: nat, delay: nat)
    requires q > 0 && delay < q && x == side * q + delay
    ensures x / q == side && x % q == delay
  {
    var a, b := x / q, x % q;
    assert x == a * q + b;
    if a < side {
      ProductMonotone(a + 1, side, q);
    }
    if a > side {
      ProductMonotone(side + 1, a, q);
    }
  }

  /** What the disassembler makes of a packed word, in terms of its fields. */
  lemma DisassembleFields(raw: Raw, field: nat, op: Op<int>, bits: nat, opt: bool)
    requires raw.Raw? && raw.kind < 8 && raw.arg1 < 8 && raw.arg2 < 32 && field < 32 && bits <= 5
    requires DecodeOp(raw.kind, raw.arg1, raw.arg2) == Some(op)
    ensures Pack(raw, field) < 0x1_0000
    ensures Disassemble(Pack(raw, field), bits, opt) ==
            Shown(op,
                  if bits != 0 && (!opt || field / 16 == 1)
                  then Some((field % (if opt then 16 else 32)) / Bits.Pow2(5 - bits)) else None,
                  field % Bits.Pow2(5 - bits))
  {
    PackFields(raw, field);
    FieldsOf(raw.kind, field, raw.arg1, raw.arg2);
  }

  /** What an accepted instruction should be shown as. A side-set of width 0 is not shown. */
  function Expected(env: Env, cfg: Config, inst: Instruction): Shown {
    Shown(Denoted(env, inst.op),
          if inst.side.None? || cfg.bits == 0 then None else Some(Val(env, inst.side.value)),
          Val(env, inst.delay))
  }

  /** Every accepted instruction is shown again as what it denotes, with its side-set value and delay. */
  lemma DisassembleInvertsEncode(env: Env, cfg: Config, inst: Instruction)
    requires Finalized(cfg) && Admissible(cfg, inst) && !inst.op.RawWord?
    requires Encode(env, cfg, inst).Word?
    ensures Encode(env, cfg, inst).w < 0x1_0000
    ensures Disassemble(Encode(env, cfg, inst).w, ShownBits(cfg), ShownOpt(cfg)) == Expected(env, cfg, inst)
  {
    var raw := RawEncode(env, cfg.length, inst.op);
    RawEncodeDecodes(env, cfg.length, inst.op);
    var delay := Val(env, inst.delay);
    if inst.side.None? {
      PlainField(cfg, delay);
      DisassembleFields(raw, delay, Denoted(env, inst.op), ShownBits(cfg), ShownOpt(cfg));
    } else {
      var side := Val(env, inst.side.value);
      SharedField(cfg, side, delay);
      DisassembleFields(raw, SideField(cfg, side, delay), Denoted(env, inst.op), cfg.bits, cfg.opt);
    }
  }

  /** Without a side-set value the field is the delay, and no side is shown. */
  lemma PlainField(cfg: Config, delay: nat)
    requires Finalized(cfg) && cfg.opt && delay <= cfg.delayMax
    ensures delay < 32 && delay % Bits.Pow2(5 - ShownBits(cfg)) == delay
    ensures ShownBits(cfg) != 0 ==> delay / 16 == 0
  {
    Powers();
    SideFieldSplits(delay, 0, Bits.Pow2(5 - ShownBits(cfg)), delay);
  }

  lemma HighBit(x: nat)
    requires x < 16
    ensures (16 + x) / 16 == 1 && (16 + x) % 16 == x
  {
  }

  lemma SharedField(cfg: Config, side: nat, delay: nat)
    requires Finalized(cfg) && cfg.declared && side <= cfg.sidesetMax && delay <= cfg.delayMax
    ensures var field, q := SideField(cfg, side, delay), Bits.Pow2(5 - cfg.bits);
            && field < 32 && field % q == delay
            && (cfg.opt ==> field / 16 == 1)
            && (field % (if cfg.opt then 16 else 32)) / q == side
  {
    SideFieldIsSum(cfg, side, delay);
    SideFieldSplits(side * Bits.Pow2(5 - cfg.bits) + delay, side, Bits.Pow2(5 - cfg.bits), delay);
    if cfg.opt {
      OptionalField(cfg.bits, side, delay);
    } else {
      SmallModulo(SideField(cfg, side, delay), 32);
    }
  }

  lemma OptionalField(bits: nat, side: nat, delay: nat)
    requires 1 <= bits <= 5 && side < Bits.Pow2(bits - 1) && delay < Bits.Pow2(5 - bits)
    requires side * Bits.Pow2(5 - bits) + delay < 16
    ensures var q := Bits.Pow2(5 - bits);
            var field := 16 + side * q + delay;
            field % q == delay && field / 16 == 1 && field % 16 == side * q + delay
  {
    var q, top := Bits.Pow2(5 - bits), Bits.Pow2(bits - 1);
    Powers();
    SplitPowers(bits - 1, 5 - bits, side);
    SideFieldSplits(16 + side * q + delay, top + side, q, delay);
    HighBit(side * q + delay);
  }

  // ------------------------------------------------------------------
  // The encoder accepts exactly what a word can hold
  // ------------------------------------------------------------------

  predicate Resolves(env: Env, e: Expr) {
    Resolved(env, {}, e).Value?
  }

  /** All operands of the instruction have values. */
  predicate OperandsResolve(env: Env, op: Op<Expr>) {
    match op
    case Jmp(_, e) => Resolves(env, e)
    case WaitFor(p, Gpio(e)) => Resolves(env, p) && Resolves(env, e)
    case WaitFor(p, Pin(e)) => Resolves(env, p) && Resolves(env, e)
    case WaitFor(p, Irq(e, _)) => Resolves(env, p) && Resolves(env, e)
    case In(_, e) => Resolves(env, e)
    case Out(_, e) => Resolves(env, e)
    case RaiseIrq(_, e, _) => Resolves(env, e)
    case Set(_, e) => Resolves(env, e)
    case RawWord(e) => Resolves(env, e)
    case _ => true
  }

  predicate AllResolve(env: Env, inst: Instruction) {
    && OperandsResolve(env, inst.op) && Resolves(env, inst.delay)
    && (inst.side.Some? ==> Resolves(env, inst.side.value))
  }

  /** Some word is shown as the instruction. */
  ghost predicate Showable(cfg: Config, shown: Shown)
    requires cfg.bits <= 5
  {
    exists w: nat :: w < 0x1_0000 && Disassemble(w, ShownBits(cfg), ShownOpt(cfg)) == shown
  }

  /** Only jumps are limited further, to the program, and a side-set of width 0 to the value 0. */
  predicate InProgram(env: Env, cfg: Config, inst: Instruction) {
    && (inst.op.Jmp? ==> Val(env, inst.op.target) < cfg.length)
    && (inst.side.Some? && cfg.bits == 0 ==> Val(env, inst.side.value) == 0)
  }

  /** Operands that can be decoded are in the range the encoder checks. */
  lemma DecodedOperandsEncode(env: Env, length: nat, op: Op<Expr>, major: nat, arg1: nat, arg2: nat)
    requires WellFormed(op) && !op.RawWord? && OperandsResolve(env, op)
    requires op.Jmp? ==> Val(env, op.target) < length
    requires major < 8 && arg1 < 8 && arg2 < 32 && DecodeOp(major, arg1, arg2) == Some(Denoted(env, op))
    ensures RawEncode(env, length, op).Raw?
  {
    match op
    case WaitFor(_, _) =>
    case _ =>
  }

  /** A delay and a side-set value that can be shown are within the limits. */
  lemma ShownFieldsFit(cfg: Config, field: nat)
    requires Finalized(cfg) && field < 32
    ensures 0 <= field % Bits.Pow2(5 - ShownBits(cfg)) <= cfg.delayMax
    ensures cfg.bits != 0 ==> 0 <= (field % (if cfg.opt then 16 else 32)) / Bits.Pow2(5 - cfg.bits) <= cfg.sidesetMax
  {
    Powers();
  }

  /** The parts of a word that is shown. */
  lemma ShownParts(cfg: Config, w: nat, shown: Shown)
    requires Finalized(cfg) && w < 0x1_0000
    requires Disassemble(w, ShownBits(cfg), ShownOpt(cfg)) == shown && shown.Shown?
    ensures DecodeOp(w / 8192, (w / 32) % 8, w % 32) == Some(shown.op)
    ensures 0 <= shown.delay <= cfg.delayMax
    ensures shown.side.Some? ==> 0 <= shown.side.value <= cfg.sidesetMax
  {
    ShownFieldsFit(cfg, (w / 256) % 32);
  }

  /** The encoder's checks, in terms of the operands' values. */
  lemma AcceptedResolves(env: Env, cfg: Config, inst: Instruction)
    requires Finalized(cfg) && Admissible(cfg, inst) && !inst.op.RawWord?
    requires Encode(env, cfg, inst).Word?
    ensures AllResolve(env, inst) && InProgram(env, cfg, inst)
  {
    assert RawEncode(env, cfg.length, inst.op).Raw?;
  }

  predicate FieldsFit(env: Env, cfg: Config, inst: Instruction) {
    && 0 <= Val(env, inst.delay) <= cfg.delayMax
    && (inst.side.Some? ==> 0 <= Val(env, inst.side.value) <= cfg.sidesetMax)
  }

  lemma FittingIsAccepted(env: Env, cfg: Config, inst: Instruction)
    requires cfg.bits <= 5 && !inst.op.RawWord? && AllResolve(env, inst)
    requires FieldsFit(env, cfg, inst) && RawEncode(env, cfg.length, inst.op).Raw?
    ensures Encode(env, cfg, inst).Word?
  {
  }

  lemma ShownFits(env: Env, cfg: Config, inst: Instruction, w: nat)
    requires Finalized(cfg) && Admissible(cfg, inst) && InProgram(env, cfg, inst)
    requires w < 0x1_0000 && Disassemble(w, ShownBits(cfg), ShownOpt(cfg)) == Expected(env, cfg, inst)
    ensures FieldsFit(env, cfg, inst)
    ensures DecodeOp(w / 8192, (w / 32) % 8, w % 32) == Some(Denoted(env, inst.op))
  {
    ShownParts(cfg, w, Expected(env, cfg, inst));
  }

  lemma ShowableIsAccepted(env: Env, cfg: Config, inst: Instruction, w: nat)
    requires Finalized(cfg) && Admissible(cfg, inst) && !inst.op.RawWord?
    requires AllResolve(env, inst) && InProgram(env, cfg, inst)
    requires w < 0x1_0000 && Disassemble(w, ShownBits(cfg), ShownOpt(cfg)) == Expected(env, cfg, inst)
    ensures Encode(env, cfg, inst).Word?
  {
    ShownFits(env, cfg, inst, w);
    DecodedOperandsEncode(env, cfg.length, inst.op, w / 8192, (w / 32) % 8, w % 32);
    FittingIsAccepted(env, cfg, inst);
  }

  /** Instructions are rejected only for operands without a value, or that no word can show. */
  lemma EncodesIffShowable(env: Env, cfg: Config, inst: Instruction)
    requires Finalized(cfg) && Admissible(cfg, inst) && !inst.op.RawWord?
    ensures Encode(env, cfg, inst).Word? <==>
            AllResolve(env, inst) && InProgram(env, cfg, inst) && Showable(cfg, Expected(env, cfg, inst))
  {
    if Encode(env, cfg, inst).Word? {
      AcceptedResolves(env, cfg, inst);
      DisassembleInvertsEncode(env, cfg, inst);
    } else if AllResolve(env, inst) && InProgram(env, cfg, inst) && Showable(cfg, Expected(env, cfg, inst)) {
      var w: nat :| w < 0x1_0000 && Disassemble(w, ShownBits(cfg), ShownOpt(cfg)) == Expected(env, cfg, inst);
      ShowableIsAccepted(env, cfg, inst, w);
    }
  }
}
