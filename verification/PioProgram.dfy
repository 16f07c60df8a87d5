/** Building PIO programs: symbol scoping, labels, instructions, and finalization. */
module PioProgram {
  import opened Words
  import Bits
  import opened PioExpr
  import opened PioResolver
  import opened PioCodec

  const MAX_INSTRUCTIONS := 32

  datatype Sym = Sym(name: string, value: Expr, isLabel: bool, isPublic: bool)

  /** What fits into the instruction memory. */
  type Instructions = code: seq<Instruction> | |code| <= MAX_INSTRUCTIONS

  datatype Prog = Prog(
    name: string,
    symbols: map<string, Sym>,
    ordered: seq<Sym>,
    instructions: Instructions,
    sideset: Option<Expr>,
    sidesetOpt: bool,
    wrap: Option<int>,
    wrapTarget: Option<int>)

  function NewProg(name: string): Prog {
    Prog(name, map[], [], [], None, true, None, None)
  }

  // ------------------------------------------------------------------
  // The building operations on values; None is a syntax error
  // ------------------------------------------------------------------

  function WithSymbol(p: Prog, globals: map<string, Sym>, s: Sym): Option<Prog> {
    if s.name in globals || s.name in p.symbols then None
    else Some(p.(symbols := p.symbols[s.name := s], ordered := p.ordered + [s]))
  }

  function WithInstruction(p: Prog, inst: Instruction): Option<Prog> {
    if |p.instructions| >= MAX_INSTRUCTIONS || (!p.sidesetOpt && inst.side.None?) then None
    else Some(p.(instructions := p.instructions + [inst]))
  }

  function WithSideset(p: Prog, bits: Expr, opt: bool): Option<Prog> {
    if p.instructions != [] then None else Some(p.(sideset := Some(bits), sidesetOpt := opt))
  }

  function WithWrap(p: Prog): Option<Prog> {
    if p.wrap.Some? || p.instructions == [] then None else Some(p.(wrap := Some(|p.instructions| - 1)))
  }

  function WithWrapTarget(p: Prog): Option<Prog> {
    if p.wrapTarget.Some? then None else Some(p.(wrapTarget := Some(|p.instructions|)))
  }

  // ------------------------------------------------------------------
  // The whole source file
  // ------------------------------------------------------------------

  datatype Build = Build(globals: Prog, programs: seq<Prog>)

  datatype Action =
    | Begin(name: string)
    | Define(name: string, value: Expr, isPublic: bool)
    | Label(name: string, isPublic: bool)
    | Emit(inst: Instruction)
    | SideSet(bits: Expr, opt: bool)
    | Wrap
    | WrapTarget

  function OnCurrent(p: Prog, globals: map<string, Sym>, a: Action): Option<Prog>
    requires !a.Begin?
  {
    match a
    case Define(name, value, isPublic) => WithSymbol(p, globals, Sym(name, value, false, isPublic))
    case Label(name, isPublic) =>
      WithSymbol(p, globals, Sym(name, IntValue(|p.instructions|), true, isPublic))
    case Emit(inst) => WithInstruction(p, inst)
    case SideSet(bits, opt) => WithSideset(p, bits, opt)
    case Wrap => WithWrap(p)
    case WrapTarget => WithWrapTarget(p)
  }

  /** One directive. Outside a program only symbol definitions are allowed, and they are global. */
  function Act(b: Build, a: Action): Option<Build> {
    if a.Begin? then
      if exists p | p in b.programs :: p.name == a.name then None
      else Some(b.(programs := b.programs + [NewProg(a.name)]))
    else if b.programs == [] then
      if !a.Define? then None
      else
        var g := OnCurrent(b.globals, b.globals.symbols, a);
        if g.None? then None else Some(b.(globals := g.value))
    else
      var k := |b.programs| - 1;
      var p := OnCurrent(b.programs[k], b.globals.symbols, a);
      if p.None? then None else Some(b.(programs := b.programs[..k] + [p.value]))
  }

  /** A directive in error leaves everything as it was. */
  function Perform(b: Build, a: Action): Build {
    if Act(b, a).Some? then Act(b, a).value else b
  }

  function Run(b: Build, actions: seq<Action>): Build {
    if actions == [] then b else Perform(Run(b, actions[..|actions| - 1]), actions[|actions| - 1])
  }

  const START := Build(NewProg(""), [])

  // ------------------------------------------------------------------
  // What every build keeps
  // ------------------------------------------------------------------

  /** The symbol map and the ordered list hold the same symbols, each once, under its own name. */
  predicate Consistent(p: Prog) {
    && (forall n | n in p.symbols :: p.symbols[n].name == n && p.symbols[n] in p.ordered)
    && (forall s | s in p.ordered :: s.name in p.symbols && p.symbols[s.name] == s)
    && (forall i, j | 0 <= i < j < |p.ordered| :: p.ordered[i].name != p.ordered[j].name)
  }

  /** Labels, wrap points and instruction count stay within the program; `side` is present if required. */
  predicate Bounded(p: Prog) {
    && |p.instructions| <= MAX_INSTRUCTIONS
    && (forall s | s in p.ordered && s.isLabel :: s.value.IntValue? && 0 <= s.value.value <= |p.instructions|)
    && (p.wrap.Some? ==> 0 <= p.wrap.value < |p.instructions|)
    && (p.wrapTarget.Some? ==> 0 <= p.wrapTarget.value <= |p.instructions|)
    && (p.sideset.None? ==> p.sidesetOpt)
    && (!p.sidesetOpt ==> forall inst | inst in p.instructions :: inst.side.Some?)
  }

  predicate Scoped(b: Build) {
    && Consistent(b.globals) && Bounded(b.globals) && b.globals.instructions == []
    && (forall p | p in b.programs :: Consistent(p) && Bounded(p) && p.symbols.Keys !! b.globals.symbols.Keys)
    && (forall i, j | 0 <= i < j < |b.programs| :: b.programs[i].name != b.programs[j].name)
  }

  lemma SymbolKeeps(p: Prog, globals: map<string, Sym>, s: Sym)
    requires Consistent(p) && WithSymbol(p, globals, s).Some?
    ensures Consistent(WithSymbol(p, globals, s).value)
  {
    var q := WithSymbol(p, globals, s).value;
    assert q.ordered[|p.ordered|] == s;
    forall i, j | 0 <= i < j < |q.ordered|
      ensures q.ordered[i].name != q.ordered[j].name
    {
      assert p.ordered[i] in p.ordered;
    }
    forall n | n in q.symbols
      ensures q.symbols[n].name == n && q.symbols[n] in q.ordered
    {
      if n != s.name {
        assert q.symbols[n] == p.symbols[n];
      }
    }
  }

  /** What a directive on one program keeps. */
  predicate Kept(p: Prog, q: Prog, globals: map<string, Sym>) {
    Consistent(q) && Bounded(q) && q.symbols.Keys !! globals.Keys && q.name == p.name
  }

  predicate Sound(p: Prog, globals: map<string, Sym>) {
    Consistent(p) && Bounded(p) && p.symbols.Keys !! globals.Keys
  }

  lemma SymbolIsSound(p: Prog, globals: map<string, Sym>, s: Sym)
    requires Sound(p, globals) && WithSymbol(p, globals, s).Some?
    requires s.isLabel ==> s.value.IntValue? && 0 <= s.value.value <= |p.instructions|
    ensures Kept(p, WithSymbol(p, globals, s).value, globals)
  {
    SymbolKeeps(p, globals, s);
  }

  lemma InstructionKeeps(p: Prog, globals: map<string, Sym>, inst: Instruction)
    requires Sound(p, globals) && WithInstruction(p, inst).Some?
    ensures Kept(p, WithInstruction(p, inst).value, globals)
  {
  }

  lemma SidesetKeeps(p: Prog, globals: map<string, Sym>, bits: Expr, opt: bool)
    requires Sound(p, globals) && WithSideset(p, bits, opt).Some?
    ensures Kept(p, WithSideset(p, bits, opt).value, globals)
  {
  }

  lemma WrapKeeps(p: Prog, globals: map<string, Sym>)
    requires Sound(p, globals)
    ensures WithWrap(p).Some? ==> Kept(p, WithWrap(p).value, globals)
    ensures WithWrapTarget(p).Some? ==> Kept(p, WithWrapTarget(p).value, globals)
  {
  }

  lemma CurrentKeeps(p: Prog, globals: map<string, Sym>, a: Action)
    requires Sound(p, globals) && !a.Begin?
    requires OnCurrent(p, globals, a).Some?
    ensures Kept(p, OnCurrent(p, globals, a).value, globals)
  {
    match a
    case Define(name, value, isPublic) => SymbolIsSound(p, globals, Sym(name, value, false, isPublic));
    case Label(name, isPublic) =>
      SymbolIsSound(p, globals, Sym(name, IntValue(|p.instructions|), true, isPublic));
    case Emit(inst) => InstructionKeeps(p, globals, inst);
    case SideSet(bits, opt) => SidesetKeeps(p, globals, bits, opt);
    case Wrap => WrapKeeps(p, globals);
    case WrapTarget => WrapKeeps(p, globals);
  }

  lemma GlobalKeeps(g: Prog, a: Action)
    requires Consistent(g) && Bounded(g) && g.instructions == [] && a.Define?
    requires OnCurrent(g, g.symbols, a).Some?
    ensures var q := OnCurrent(g, g.symbols, a).value;
            Consistent(q) && Bounded(q) && q.instructions == []
  {
    SymbolKeeps(g, g.symbols, Sym(a.name, a.value, false, a.isPublic));
  }

  lemma BeginKeeps(b: Build, name: string)
    requires Scoped(b) && forall p | p in b.programs :: p.name != name
    ensures Scoped(b.(programs := b.programs + [NewProg(name)]))
  {
    forall p | p in b.programs + [NewProg(name)]
      ensures p in b.programs || p == NewProg(name)
    {
    }
  }

  lemma ReplaceLastKeeps(b: Build, q: Prog)
    requires Scoped(b) && b.programs != [] && Kept(b.programs[|b.programs| - 1], q, b.globals.symbols)
    ensures Scoped(b.(programs := b.programs[..|b.programs| - 1] + [q]))
  {
    var front := b.programs[..|b.programs| - 1];
    forall p | p in front + [q]
      ensures p in b.programs || p == q
    {
    }
  }

  lemma ActKeepsScoped(b: Build, a: Action)
    requires Scoped(b)
    ensures Scoped(Perform(b, a))
  {
    if Act(b, a).Some? {
      if a.Begin? {
        BeginKeeps(b, a.name);
      } else if b.programs == [] {
        GlobalKeeps(b.globals, a);
      } else {
        var p := b.programs[|b.programs| - 1];
        assert p in b.programs;
        CurrentKeeps(p, b.globals.symbols, a);
        ReplaceLastKeeps(b, OnCurrent(p, b.globals.symbols, a).value);
      }
    }
  }

  /** The scoping rules hold after every sequence of directives, failing ones included. */
  lemma {:induction false} BuildIsScoped(actions: seq<Action>)
    ensures Scoped(Run(START, actions))
  {
    if actions != [] {
      BuildIsScoped(actions[..|actions| - 1]);
      ActKeepsScoped(Run(START, actions[..|actions| - 1]), actions[|actions| - 1]);
    }
  }

  // ------------------------------------------------------------------
  // Programs only grow, so a label keeps pointing at the same place
  // ------------------------------------------------------------------

  predicate Grows(p: Prog, q: Prog) {
    && p.ordered <= q.ordered && p.instructions <= q.instructions
    && (forall n | n in p.symbols :: n in q.symbols && q.symbols[n] == p.symbols[n])
    && (p.wrap.Some? ==> q.wrap == p.wrap) && (p.wrapTarget.Some? ==> q.wrapTarget == p.wrapTarget)
    && (p.instructions != [] ==> q.sideset == p.sideset && q.sidesetOpt == p.sidesetOpt)
    && q.name == p.name
  }

  predicate BuildGrows(b: Build, c: Build) {
    && |b.programs| <= |c.programs|
    && (forall i | 0 <= i < |b.programs| :: Grows(b.programs[i], c.programs[i]))
    && (b.programs != [] ==> c.globals == b.globals)
  }

  lemma PerformGrows(b: Build, a: Action)
    ensures BuildGrows(b, Perform(b, a))
  {
  }

  lemma {:induction false} RunGrows(b: Build, actions: seq<Action>)
    ensures BuildGrows(b, Run(b, actions))
  {
    if actions != [] {
      var front := Run(b, actions[..|actions| - 1]);
      RunGrows(b, actions[..|actions| - 1]);
      PerformGrows(front, actions[|actions| - 1]);
    }
  }

  /** However the build continues, a label's value is the number of instructions that precede it. */
  lemma LabelIsPosition(b: Build, name: string, isPublic: bool, actions: seq<Action>)
    requires Act(b, Label(name, isPublic)).Some?
    ensures b.programs != []
    ensures var k := |b.programs| - 1;
            var c := Run(Perform(b, Label(name, isPublic)), actions);
            && k < |c.programs| && name in c.programs[k].symbols
            && c.programs[k].symbols[name] == Sym(name, IntValue(|b.programs[k].instructions|), true, isPublic)
            && b.programs[k].instructions <= c.programs[k].instructions
  {
    RunGrows(Perform(b, Label(name, isPublic)), actions);
  }

  /** However the build continues, the wrap point is the last instruction before `.wrap`. */
  lemma WrapIsLast(b: Build, actions: seq<Action>)
    requires Act(b, Wrap).Some?
    ensures b.programs != []
    ensures var k := |b.programs| - 1;
            var before, c := b.programs[k].instructions, Run(Perform(b, Wrap), actions);
            && k < |c.programs| && before != [] && before <= c.programs[k].instructions
            && c.programs[k].wrap == Some(|before| - 1)
  {
    RunGrows(Perform(b, Wrap), actions);
  }

  /** The wrap target is the first instruction after `.wrap_target`. */
  lemma WrapTargetIsNext(b: Build, actions: seq<Action>)
    requires Act(b, WrapTarget).Some?
    ensures b.programs != []
    ensures var k := |b.programs| - 1;
            var before, c := b.programs[k].instructions, Run(Perform(b, WrapTarget), actions);
            && k < |c.programs| && before <= c.programs[k].instructions
            && c.programs[k].wrapTarget == Some(|before|)
  {
    RunGrows(Perform(b, WrapTarget), actions);
  }

  /** An instruction stays at the place where it was written. */
  lemma InstructionStays(b: Build, inst: Instruction, actions: seq<Action>)
    requires Act(b, Emit(inst)).Some?
    ensures b.programs != []
    ensures var k := |b.programs| - 1;
            var before, c := b.programs[k].instructions, Run(Perform(b, Emit(inst)), actions);
            && k < |c.programs| && before + [inst] <= c.programs[k].instructions
  {
    RunGrows(Perform(b, Emit(inst)), actions);
  }

  /** A `.side_set` that instructions follow is the program's. */
  lemma SidesetStays(b: Build, bits: Expr, opt: bool, inst: Instruction, actions: seq<Action>)
    requires Act(b, SideSet(bits, opt)).Some? && Act(Perform(b, SideSet(bits, opt)), Emit(inst)).Some?
    ensures b.programs != []
    ensures var k := |b.programs| - 1;
            var c := Run(Perform(Perform(b, SideSet(bits, opt)), Emit(inst)), actions);
            && k < |c.programs| && c.programs[k].sideset == Some(bits) && c.programs[k].sidesetOpt == opt
  {
    RunGrows(Perform(Perform(b, SideSet(bits, opt)), Emit(inst)), actions);
  }

  /** Which directives are accepted, and where. */
  lemma AcceptedIff(b: Build, a: Action)
    ensures var inside := b.programs != [];
            var p := if inside then b.programs[|b.programs| - 1] else b.globals;
            Act(b, a).Some? <==>
            match a
            case Begin(name) => forall q | q in b.programs :: q.name != name
            case Define(name, _, _) => name !in b.globals.symbols && name !in p.symbols
            case Label(name, _) => inside && name !in b.globals.symbols && name !in p.symbols
            case Emit(inst) => inside && |p.instructions| < 32 && (inst.side.Some? || p.sidesetOpt)
            case SideSet(_, _) => inside && p.instructions == []
            case Wrap => inside && p.instructions != [] && p.wrap.None?
            case WrapTarget => inside && p.wrapTarget.None?
  {
  }

  // ------------------------------------------------------------------
  // Finalization and assembly
  // ------------------------------------------------------------------

  /** The names visible in a program: its own and the global ones. */
  function EnvIn(b: Build, k: nat): Env
    requires k < |b.programs|
  {
    var visible := b.programs[k].symbols + b.globals.symbols;
    map n | n in visible :: visible[n].value
  }

  /** The side-set and delay limits of a program; None when the side-set width is rejected. */
  function Finalize(env: Env, p: Prog): Option<Config> {
    if p.sideset.None? then Some(Config(false, p.sidesetOpt, 0, 0, 31, |p.instructions|))
    else
      var n := Resolved(env, {}, p.sideset.value);
      if !n.Value? || n.v < 0 || n.v + Flag(p.sidesetOpt, 1) > 5 then None
      else
        var bits := n.v + Flag(p.sidesetOpt, 1);
        Some(Config(true, p.sidesetOpt, bits, Bits.Pow2(n.v) - 1, Bits.Pow2(5 - bits) - 1, |p.instructions|))
  }

  lemma FinalizeIsFinalized(env: Env, p: Prog)
    requires Bounded(p) && Finalize(env, p).Some?
    ensures Finalized(Finalize(env, p).value)
  {
  }

  /** The words of a program, if every instruction is accepted. */
  function Assemble(env: Env, cfg: Config, code: seq<Instruction>): Option<seq<nat>>
    requires cfg.bits <= 5
  {
    if code == [] then Some([])
    else
      var front, w := Assemble(env, cfg, code[..|code| - 1]), Encode(env, cfg, code[|code| - 1]);
      if front.None? || w.Rejected? then None else Some(front.value + [w.w])
  }

  lemma {:induction false} AssembleWords(env: Env, cfg: Config, code: seq<Instruction>)
    requires cfg.bits <= 5 && Assemble(env, cfg, code).Some?
    ensures var words := Assemble(env, cfg, code).value;
            |words| == |code| && forall i | 0 <= i < |code| :: Encode(env, cfg, code[i]) == Word(words[i])
  {
    if code != [] {
      AssembleWords(env, cfg, code[..|code| - 1]);
    }
  }

  /** What the grammar guarantees of the instructions, and `side` only under `.side_set`. */
  predicate WellFormedCode(p: Prog) {
    forall inst | inst in p.instructions ::
      PioCodec.WellFormed(inst.op) && (inst.side.Some? ==> p.sideset.Some?)
  }

  /** Any program that can be built and is accepted disassembles to what was written. */
  lemma AssembledProgramRoundTrips(actions: seq<Action>, k: nat)
    requires var b := Run(START, actions); k < |b.programs| && WellFormedCode(b.programs[k])
    requires var b := Run(START, actions);
             var cfg := Finalize(EnvIn(b, k), b.programs[k]);
             cfg.Some? && cfg.value.bits <= 5 && Assemble(EnvIn(b, k), cfg.value, b.programs[k].instructions).Some?
    ensures var b := Run(START, actions);
            var env, code := EnvIn(b, k), b.programs[k].instructions;
            var cfg := Finalize(env, b.programs[k]).value;
            var words := Assemble(env, cfg, code).value;
            && |words| == |code| <= MAX_INSTRUCTIONS
            && forall i | 0 <= i < |code| && !code[i].op.RawWord? ::
                 words[i] < 0x1_0000 &&
                 Disassemble(words[i], ShownBits(cfg), ShownOpt(cfg)) == Expected(env, cfg, code[i])
  {
    var b := Run(START, actions);
    BuildIsScoped(actions);
    var p, env := b.programs[k], EnvIn(b, k);
    assert p in b.programs;
    FinalizeIsFinalized(env, p);
    var cfg, code := Finalize(env, p).value, p.instructions;
    AssembleWords(env, cfg, code);
    forall i | 0 <= i < |code| && !code[i].op.RawWord?
      ensures Encode(env, cfg, code[i]).w < 0x1_0000
      ensures Disassemble(Encode(env, cfg, code[i]).w, ShownBits(cfg), ShownOpt(cfg)) == Expected(env, cfg, code[i])
    {
      assert code[i] in code;
      DisassembleInvertsEncode(env, cfg, code[i]);
    }
  }

  /** A jump to a label goes to the label's position, and is rejected exactly when the label stands
      after the last instruction. */
  lemma JumpToLabel(actions: seq<Action>, k: nat, name: string, cond: Condition)
    requires var b := Run(START, actions);
             k < |b.programs| && name in b.programs[k].symbols && b.programs[k].symbols[name].isLabel
    ensures var b := Run(START, actions);
            var p := b.programs[k];
            var position := p.symbols[name].value;
            && position.IntValue? && 0 <= position.value <= |p.instructions|
            && Resolved(EnvIn(b, k), {}, NameRef(name)) == Value(position.value)
            && RawEncode(EnvIn(b, k), |p.instructions|, Jmp(cond, NameRef(name))) ==
               if position.value < |p.instructions| then Raw(0, ConditionCode(cond), position.value)
               else RawError(OutOfRange)
  {
    var b := Run(START, actions);
    BuildIsScoped(actions);
    var p := b.programs[k];
    assert p in b.programs && p.symbols[name] in p.ordered;
    assert name !in b.globals.symbols;
  }

  // ------------------------------------------------------------------
  // What names mean in a program
  // ------------------------------------------------------------------

  lemma PathThrough(env: Env, n: string, p: seq<string>)
    requires n in env && IsPath(env, env[n], p)
    ensures IsPath(env, NameRef(n), [n] + p)
  {
    assert ([n] + p)[1..] == p;
  }

  lemma GroundedDefinition(env: Env, n: string)
    requires n in env && Grounded(env, NameRef(n))
    ensures Grounded(env, env[n])
  {
    forall p | IsPath(env, env[n], p)
      ensures Distinct(p) && forall m | m in p :: m in env
    {
      PathThrough(env, n, p);
      var q := [n] + p;
      assert Distinct(q);
      assert forall m | m in p :: m in q;
      assert forall i | 0 <= i < |p| :: p[i] == q[i + 1];
    }
  }

  /** A visible name has the value of its definition. */
  lemma NameHasItsValue(env: Env, n: string)
    requires n in env && Resolved(env, {}, NameRef(n)).Value?
    ensures Resolved(env, {}, NameRef(n)) == Resolved(env, {}, env[n])
  {
    ResolutionExact(env, NameRef(n), |env| + 1);
    GroundedDefinition(env, n);
    ResolutionExact(env, env[n], |env|);
    assert Eval(env, NameRef(n), |env| + 1) == Eval(env, env[n], |env|);
  }

  lemma VisibleIn(b: Build, k: nat, name: string)
    requires Scoped(b) && k < |b.programs| && name in b.globals.symbols
    ensures name in EnvIn(b, k) && EnvIn(b, k)[name] == b.globals.symbols[name].value
  {
    assert b.programs[k] in b.programs;
  }

  predicate MeansItsDefinition(env: Env, name: string, value: Expr) {
    && name in env && env[name] == value
    && Resolved(env, {}, NameRef(name)) == Resolved(env, {name}, value)
    && (Resolved(env, {}, NameRef(name)).Value? ==> Resolved(env, {}, NameRef(name)) == Resolved(env, {}, value))
  }

  lemma DefinedMeans(env: Env, name: string)
    requires name in env
    ensures MeansItsDefinition(env, name, env[name])
  {
    assert {} + {name} == {name};
    if Resolved(env, {}, NameRef(name)).Value? {
      NameHasItsValue(env, name);
    }
  }

  /** However the build continues, a global `.define` is what its name means in every program. */
  lemma GlobalIsVisible(b: Build, name: string, value: Expr, isPublic: bool, actions: seq<Action>, k: nat)
    requires Scoped(b) && b.programs == [] && Act(b, Define(name, value, isPublic)).Some?
    requires k < |Run(Perform(b, Define(name, value, isPublic)), actions).programs|
    ensures MeansItsDefinition(EnvIn(Run(Perform(b, Define(name, value, isPublic)), actions), k), name, value)
  {
    var d := Perform(b, Define(name, value, isPublic));
    DefinedGlobally(b, name, value, isPublic);
    GlobalsStay(d, actions);
    ActKeepsScoped(b, Define(name, value, isPublic));
    RunKeepsScoped(d, actions);
    VisibleIn(Run(d, actions), k, name);
    DefinedMeans(EnvIn(Run(d, actions), k), name);
  }

  lemma DefinedGlobally(b: Build, name: string, value: Expr, isPublic: bool)
    requires b.programs == [] && Act(b, Define(name, value, isPublic)).Some?
    ensures var g := Perform(b, Define(name, value, isPublic)).globals.symbols;
            name in g && g[name] == Sym(name, value, false, isPublic)
  {
  }

  /** A `.define` in a program means its definition there. */
  lemma LocalIsVisible(b: Build, name: string, value: Expr, isPublic: bool, actions: seq<Action>)
    requires Scoped(b) && b.programs != [] && Act(b, Define(name, value, isPublic)).Some?
    ensures var c := Run(Perform(b, Define(name, value, isPublic)), actions);
            |b.programs| <= |c.programs| && MeansItsDefinition(EnvIn(c, |b.programs| - 1), name, value)
  {
    var d := Perform(b, Define(name, value, isPublic));
    RunGrows(d, actions);
    ActKeepsScoped(b, Define(name, value, isPublic));
    RunKeepsScoped(d, actions);
    var c, k := Run(d, actions), |b.programs| - 1;
    OwnIsVisible(c, k, name);
    DefinedMeans(EnvIn(c, k), name);
  }

  lemma OwnIsVisible(b: Build, k: nat, name: string)
    requires Scoped(b) && k < |b.programs| && name in b.programs[k].symbols
    ensures name in EnvIn(b, k) && EnvIn(b, k)[name] == b.programs[k].symbols[name].value
  {
    assert b.programs[k] in b.programs;
  }

  lemma {:induction false} GlobalsStay(b: Build, actions: seq<Action>)
    ensures forall n | n in b.globals.symbols ::
              n in Run(b, actions).globals.symbols && Run(b, actions).globals.symbols[n] == b.globals.symbols[n]
  {
    if actions != [] {
      GlobalsStay(b, actions[..|actions| - 1]);
    }
  }

  lemma {:induction false} RunKeepsScoped(b: Build, actions: seq<Action>)
    requires Scoped(b)
    ensures Scoped(Run(b, actions))
  {
    if actions != [] {
      RunKeepsScoped(b, actions[..|actions| - 1]);
      ActKeepsScoped(Run(b, actions[..|actions| - 1]), actions[|actions| - 1]);
    }
  }

  /** Names of other programs mean nothing here. */
  lemma OthersAreHidden(b: Build, k: nat, name: string)
    requires k < |b.programs| && name !in b.programs[k].symbols && name !in b.globals.symbols
    ensures Resolved(EnvIn(b, k), {}, NameRef(name)) == Failed(Undefined(name))
  {
  }

  /** The side-set width is accepted iff its values, with the flag if there is one, fit into five bits. */
  lemma FinalizedIff(env: Env, p: Prog)
    ensures Finalize(env, p).Some? <==>
            p.sideset.None? ||
            (var n := Resolved(env, {}, p.sideset.value);
             n.Value? && n.v >= 0 && Bits.Pow2(n.v) * (if p.sidesetOpt then 2 else 1) <= 32)
  {
    if p.sideset.Some? && Resolved(env, {}, p.sideset.value).Value? && Resolved(env, {}, p.sideset.value).v >= 0 {
      PowerFits(Resolved(env, {}, p.sideset.value).v, 5);
      PowerFits(Resolved(env, {}, p.sideset.value).v, 4);
      assert Bits.Pow2(5) == 32 && Bits.Pow2(4) == 16;
    }
  }

  /** The side-set bits are those asked for, and one for the flag if side-set is optional. */
  lemma FinalizedBits(env: Env, p: Prog)
    requires Finalize(env, p).Some?
    ensures var cfg := Finalize(env, p).value;
            && cfg.declared == p.sideset.Some? && cfg.opt == p.sidesetOpt && cfg.length == |p.instructions|
            && (p.sideset.Some? ==>
                  Resolved(env, {}, p.sideset.value) == Value(if p.sidesetOpt then cfg.bits - 1 else cfg.bits))
  {
  }

  lemma {:induction false} PowerFits(n: nat, m: nat)
    ensures n <= m <==> Bits.Pow2(n) <= Bits.Pow2(m)
  {
    if n > 0 && m > 0 {
      PowerFits(n - 1, m - 1);
    }
  }
}
