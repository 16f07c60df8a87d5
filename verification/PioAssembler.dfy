/** The assembler's mutable state: programs as objects, updated directive by directive. */
module PioAssembler {
  import opened Words
  import Bits
  import opened PioExpr
  import opened PioResolver
  import opened PioCodec
  import opened PioProgram

  function SymOf(s: Symbol): Sym {
    Sym(s.name, s.value, s.isLabel, s.isPublic)
  }

  function SymMap(symbols: Table): map<string, Sym> {
    map n | n in symbols :: SymOf(symbols[n])
  }

  function SymSeq(symbols: seq<Symbol>): seq<Sym> {
    if symbols == [] then [] else SymSeq(symbols[..|symbols| - 1]) + [SymOf(symbols[|symbols| - 1])]
  }

  class Program {
    const name: string
    var symbols: Table
    var ordered: seq<Symbol>
    var instructions: Instructions
    var sideset: Option<Expr>
    var sidesetOpt: bool
    var wrap: Option<int>
    var wrapTarget: Option<int>
    // set by Finalize
    var delayMax: nat
    var sidesetBits: nat
    var sidesetMax: nat

    ghost function View(): Prog
      reads this
    {
      Prog(name, SymMap(symbols), SymSeq(ordered), instructions, sideset, sidesetOpt, wrap, wrapTarget)
    }

    constructor (name: string)
      ensures View() == NewProg(name)
    {
      this.name := name;
      symbols, ordered, instructions := map[], [], [];
      sideset, sidesetOpt, wrap, wrapTarget := None, true, None, None;
      delayMax, sidesetBits, sidesetMax := 0, 0, 0;
    }

    method AddSymbol(globals: Table, s: Symbol) returns (ok: bool)
      modifies this
      ensures ok <==> WithSymbol(old(View()), SymMap(globals), SymOf(s)).Some?
      ensures View() == if ok then WithSymbol(old(View()), SymMap(globals), SymOf(s)).value else old(View())
    {
      if s.name in globals || s.name in symbols {
        return false;
      }
      symbols := symbols[s.name := s];
      ordered := ordered + [s];
      assert ordered[..|ordered| - 1] == old(ordered);
      assert SymMap(symbols) == SymMap(old(symbols))[s.name := SymOf(s)];
      ok := true;
    }

    /** A label stands for the number of instructions so far. */
    method AddLabel(globals: Table, labelName: string, isPublic: bool) returns (ok: bool)
      modifies this
      ensures ok <==> OnCurrent(old(View()), SymMap(globals), Label(labelName, isPublic)).Some?
      ensures View() == if ok then OnCurrent(old(View()), SymMap(globals), Label(labelName, isPublic)).value
                        else old(View())
    {
      var s := new Symbol(labelName, IntValue(|instructions|), true, isPublic);
      ok := AddSymbol(globals, s);
    }

    method AddInstruction(inst: Instruction) returns (ok: bool)
      modifies this
      ensures ok <==> WithInstruction(old(View()), inst).Some?
      ensures View() == if ok then WithInstruction(old(View()), inst).value else old(View())
    {
      if |instructions| >= MAX_INSTRUCTIONS {
        return false;
      }
      if !sidesetOpt && inst.side.None? {
        return false;
      }
      instructions := instructions + [inst];
      ok := true;
    }

    /** Allowed only before the first instruction. */
    method SetSideset(bits: Expr, opt: bool) returns (ok: bool)
      modifies this
      ensures ok <==> WithSideset(old(View()), bits, opt).Some?
      ensures View() == if ok then WithSideset(old(View()), bits, opt).value else old(View())
    {
      if instructions != [] {
        return false;
      }
      sideset, sidesetOpt := Some(bits), opt;
      ok := true;
    }

    method SetWrap() returns (ok: bool)
      modifies this
      ensures ok <==> WithWrap(old(View())).Some?
      ensures View() == if ok then WithWrap(old(View())).value else old(View())
    {
      if wrap.Some? || instructions == [] {
        return false;
      }
      wrap := Some(|instructions| - 1);
      ok := true;
    }

    method SetWrapTarget() returns (ok: bool)
      modifies this
      ensures ok <==> WithWrapTarget(old(View())).Some?
      ensures View() == if ok then WithWrapTarget(old(View())).value else old(View())
    {
      if wrapTarget.Some? {
        return false;
      }
      wrapTarget := Some(|instructions|);
      ok := true;
    }

    /** Computes the side-set and delay limits, resolving the side-set width with `table`. */
    method Finish(table: Table) returns (ok: bool)
      requires Named(table) && Started(table) == {}
      modifies this, table.Values
      ensures View() == old(View()) && Started(table) == {}
      ensures ok <==> Finalize(EnvOf(table), View()).Some?
      ensures ok ==> Finalize(EnvOf(table), View()).value ==
                     Config(sideset.Some?, sidesetOpt, sidesetBits, sidesetMax, delayMax, |instructions|)
    {
      if sideset.None? {
        sidesetBits, sidesetMax, delayMax := 0, 0, 31;
        return true;
      }
      var o := Resolve(sideset.value, table);
      if !o.Value? || o.v < 0 || o.v + Flag(sidesetOpt, 1) > 5 {
        return false;
      }
      sidesetMax := Bits.Pow2(o.v) - 1;
      sidesetBits := o.v + Flag(sidesetOpt, 1);
      delayMax := Bits.Pow2(5 - sidesetBits) - 1;
      ok := true;
    }
  }

  ghost function Views(programs: seq<Program>): seq<Prog>
    reads programs
  {
    if programs == [] then [] else Views(programs[..|programs| - 1]) + [programs[|programs| - 1].View()]
  }

  class Assembler {
    const globals: Program
    var programs: seq<Program>

    ghost predicate Valid()
      reads this
    {
      && globals !in programs
      && forall i, j | 0 <= i < j < |programs| :: programs[i] != programs[j]
    }

    ghost function View(): Build
      reads this, globals, programs
    {
      Build(globals.View(), Views(programs))
    }

    constructor ()
      ensures Valid() && View() == START && fresh(globals)
    {
      globals := new Program("");
      programs := [];
    }

    /** Starts a new program, unless one of that name exists. */
    method AddProgram(name: string) returns (ok: bool)
      requires Valid()
      modifies this
      ensures Valid()
      ensures ok <==> Act(old(View()), Begin(name)).Some?
      ensures View() == Perform(old(View()), Begin(name))
    {
      for i := 0 to |programs|
        invariant forall j | 0 <= j < i :: programs[j].name != name
      {
        if programs[i].name == name {
          NameInViews(programs, i);
          return false;
        }
      }
      NoNameInViews(programs, name);
      var p := new Program(name);
      programs := programs + [p];
      assert programs[..|programs| - 1] == old(programs);
      ok := true;
    }

    /** One directive, on the current program; outside a program only `.define` is allowed. */
    method Directive(a: Action) returns (ok: bool)
      requires Valid() && !a.Begin?
      modifies globals, programs
      ensures Valid() && programs == old(programs)
      ensures ok <==> Act(old(View()), a).Some?
      ensures View() == Perform(old(View()), a)
    {
      ViewsLength(programs);
      if programs == [] {
        if !a.Define? {
          return false;
        }
        var s := new Symbol(a.name, a.value, false, a.isPublic);
        ok := globals.AddSymbol(globals.symbols, s);
      } else {
        ok := Apply(programs[|programs| - 1], a);
        assert Views(programs[..|programs| - 1]) == old(Views(programs[..|programs| - 1]));
      }
    }

    method Apply(p: Program, a: Action) returns (ok: bool)
      requires !a.Begin? && p != globals
      modifies p
      ensures ok <==> OnCurrent(old(p.View()), SymMap(globals.symbols), a).Some?
      ensures p.View() == if ok then OnCurrent(old(p.View()), SymMap(globals.symbols), a).value else old(p.View())
    {
      match a
      case Define(name, value, isPublic) =>
        var s := new Symbol(name, value, false, isPublic);
        ok := p.AddSymbol(globals.symbols, s);
      case Label(name, isPublic) => ok := p.AddLabel(globals.symbols, name, isPublic);
      case Emit(inst) => ok := p.AddInstruction(inst);
      case SideSet(bits, opt) => ok := p.SetSideset(bits, opt);
      case Wrap => ok := p.SetWrap();
      case WrapTarget => ok := p.SetWrapTarget();
    }
  }

  lemma {:induction false} ViewsLength(programs: seq<Program>)
    ensures |Views(programs)| == |programs|
    ensures forall i | 0 <= i < |programs| :: Views(programs)[i] == programs[i].View()
  {
    if programs != [] {
      ViewsLength(programs[..|programs| - 1]);
    }
  }

  lemma NameInViews(programs: seq<Program>, i: nat)
    requires i < |programs|
    ensures exists p :: p in Views(programs) && p.name == programs[i].name
  {
    ViewsLength(programs);
    assert Views(programs)[i] in Views(programs);
  }

  lemma NoNameInViews(programs: seq<Program>, name: string)
    requires forall j | 0 <= j < |programs| :: programs[j].name != name
    ensures forall p | p in Views(programs) :: p.name != name
  {
    ViewsLength(programs);
  }
}
