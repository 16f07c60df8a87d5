/** Resolution of operand expressions against a symbol table, with run-time cycle detection. */
module PioResolver {
  import opened Words
  import opened PioExpr

  /** What each visible name stands for. */
  type Env = map<string, Expr>

  class Symbol {
    const name: string
    const value: Expr
    const isLabel: bool
    const isPublic: bool
    var resolveStarted: int

    constructor (name: string, value: Expr, isLabel: bool, isPublic: bool)
      ensures this.name == name && this.value == value && this.isLabel == isLabel && this.isPublic == isPublic
      ensures resolveStarted == 0
    {
      this.name, this.value, this.isLabel, this.isPublic := name, value, isLabel, isPublic;
      resolveStarted := 0;
    }
  }

  type Table = map<string, Symbol>

  /** Every symbol is filed under its own name. */
  predicate Named(table: Table) {
    forall n | n in table :: table[n].name == n
  }

  function EnvOf(table: Table): Env {
    map n | n in table :: table[n].value
  }

  ghost function Started(table: Table): set<string>
    reads table.Values
  {
    set n | n in table && table[n].resolveStarted != 0
  }

  /** Resolution with the set of names being resolved made explicit. */
  function Resolved(env: Env, started: set<string>, e: Expr): Outcome
    decreases env.Keys - started, e
  {
    match e
    case IntValue(v) => Value(v)
    case NameRef(n) =>
      if n !in env then Failed(Undefined(n))
      else if n in started then Failed(Circular(n))
      else Resolved(env, started + {n}, env[n])
    case Unary(op, arg) => UnaryOf(op, Resolved(env, started, arg))
    case Binary(op, left, right) => BinaryOf(op, Resolved(env, started, left), Resolved(env, started, right))
  }

  /** The recursive resolver; it marks each symbol while its definition is being resolved. */
  method Resolve(e: Expr, table: Table) returns (o: Outcome)
    requires Named(table)
    modifies table.Values
    ensures o == Resolved(EnvOf(table), old(Started(table)), e)
    ensures forall n | n in table :: table[n].resolveStarted == old(table[n].resolveStarted)
    decreases table.Keys - Started(table), e
  {
    match e
    case IntValue(v) => o := Value(v);
    case NameRef(n) =>
      if n !in table {
        return Failed(Undefined(n));
      }
      var symbol := table[n];
      if symbol.resolveStarted != 0 {
        return Failed(Circular(n));
      }
      ghost var before := Started(table);
      symbol.resolveStarted := symbol.resolveStarted + 1;
      assert Started(table) == before + {n};
      o := Resolve(symbol.value, table);
      symbol.resolveStarted := symbol.resolveStarted - 1;
    case Unary(op, arg) =>
      o := Resolve(arg, table);
      if o.Value? {
        if op == Negate {
          o := Checked(-(o.v as int));
        } else {
          var r := Reverse32(o.v);
          o := Value(r);
        }
      }
    case Binary(op, left, right) =>
      o := Resolve(left, table);
      if o.Value? {
        var l := o.v;
        assert Started(table) == old(Started(table));
        o := Resolve(right, table);
        if o.Value? {
          o := ApplyBinary(op, l, o.v);
        }
      }
  }

  // ------------------------------------------------------------------
  // Reference meaning: no marks, only a bound on how deep definitions nest
  // ------------------------------------------------------------------

  /** The value of `e` when names are replaced by their definitions at most `depth` deep. */
  function Eval(env: Env, e: Expr, depth: nat): Option<Outcome>
    decreases depth, e
  {
    match e
    case IntValue(v) => Some(Value(v))
    case NameRef(n) => if n in env && depth > 0 then Eval(env, env[n], depth - 1) else None
    case Unary(op, arg) =>
      var o := Eval(env, arg, depth);
      if o.None? then None else Some(UnaryOf(op, o.value))
    case Binary(op, left, right) =>
      var l, r := Eval(env, left, depth), Eval(env, right, depth);
      if l.None? || (l.value.Value? && r.None?) then None
      else if !l.value.Value? then l
      else Some(BinaryOf(op, l.value, r.value))
  }

  function Names(e: Expr): set<string> {
    match e
    case IntValue(_) => {}
    case NameRef(n) => {n}
    case Unary(_, arg) => Names(arg)
    case Binary(_, left, right) => Names(left) + Names(right)
  }

  /** A chain of names: the first occurs in `e`, each next one in the definition before it. */
  predicate IsPath(env: Env, e: Expr, p: seq<string>)
    decreases |p|
  {
    p == [] ||
    (p[0] in Names(e) && (|p| > 1 ==> p[0] in env && IsPath(env, env[p[0]], p[1..])))
  }

  predicate Distinct(p: seq<string>) {
    forall i, j | 0 <= i < j < |p| :: p[i] != p[j]
  }

  /** All names reachable from `e` are defined, and no definition depends on itself. */
  ghost predicate Grounded(env: Env, e: Expr) {
    forall p | IsPath(env, e, p) :: Distinct(p) && forall n | n in p :: n in env
  }

  // ------------------------------------------------------------------
  // Soundness and completeness
  // ------------------------------------------------------------------

  lemma OneFewer(keys: set<string>, started: set<string>, n: string)
    requires n in keys && n !in started
    ensures |keys - (started + {n})| == |keys - started| - 1
    ensures keys - (started + {n}) < keys - started
  {
    assert keys - (started + {n}) == (keys - started) - {n};
  }

  /** The two agree on `e`, unless resolution ends in a syntax error. */
  predicate Agree(env: Env, started: set<string>, e: Expr, depth: nat) {
    !Resolved(env, started, e).Failed? ==> Eval(env, e, depth) == Some(Resolved(env, started, e))
  }

  lemma AgreeOnName(env: Env, started: set<string>, n: string, depth: nat)
    requires n in env && n !in started && depth > 0 && Agree(env, started + {n}, env[n], depth - 1)
    ensures Agree(env, started, NameRef(n), depth)
  {
  }

  lemma AgreeOnLeaf(env: Env, started: set<string>, e: Expr, depth: nat)
    requires e.IntValue? || (e.NameRef? && (e.name !in env || e.name in started))
    ensures Agree(env, started, e, depth)
  {
  }

  lemma AgreeOnUnary(env: Env, started: set<string>, e: Expr, depth: nat)
    requires e.Unary? && Agree(env, started, e.arg, depth)
    ensures Agree(env, started, e, depth)
  {
  }

  lemma AgreeOnBinary(env: Env, started: set<string>, e: Expr, depth: nat)
    requires e.Binary? && Agree(env, started, e.left, depth) && Agree(env, started, e.right, depth)
    ensures Agree(env, started, e, depth)
  {
  }

  lemma {:induction false} ResolvedIsEval(env: Env, started: set<string>, e: Expr, depth: nat)
    requires depth >= |env.Keys - started|
    ensures Agree(env, started, e, depth)
    decreases depth, e
  {
    match e
    case IntValue(_) => AgreeOnLeaf(env, started, e, depth);
    case NameRef(n) =>
      if n in env && n !in started {
        OneFewer(env.Keys, started, n);
        ResolvedIsEval(env, started + {n}, env[n], depth - 1);
        AgreeOnName(env, started, n, depth);
      } else {
        AgreeOnLeaf(env, started, e, depth);
      }
    case Unary(_, arg) =>
      ResolvedIsEval(env, started, arg, depth);
      AgreeOnUnary(env, started, e, depth);
    case Binary(_, left, right) =>
      ResolvedIsEval(env, started, left, depth);
      ResolvedIsEval(env, started, right, depth);
      AgreeOnBinary(env, started, e, depth);
  }

  /** A syntax error comes with the chain of names that causes it. */
  lemma {:induction false} FailurePath(env: Env, started: set<string>, e: Expr) returns (p: seq<string>)
    requires Resolved(env, started, e).Failed?
    ensures p != [] && IsPath(env, e, p)
    ensures var error, last := Resolved(env, started, e).error, p[|p| - 1];
            error.name == last && if error.Undefined? then last !in env else last in started || last in p[..|p| - 1]
    decreases env.Keys - started, e
  {
    match e
    case NameRef(n) =>
      p := [n];
      if n in env && n !in started {
        var q := FailurePath(env, started + {n}, env[n]);
        p := [n] + q;
        assert p[1..] == q;
        assert p[..|p| - 1] == [n] + q[..|q| - 1];
      }
    case Unary(_, arg) => p := FailurePath(env, started, arg);
    case Binary(_, left, right) =>
      if Resolved(env, started, left).Failed? {
        p := FailurePath(env, started, left);
      } else {
        p := FailurePath(env, started, right);
      }
  }

  lemma {:induction false} ResolvedNames(env: Env, started: set<string>, e: Expr, n: string)
    requires Resolved(env, started, e).Value? && n in Names(e)
    ensures n in env && n !in started && Resolved(env, started + {n}, env[n]).Value?
    decreases e
  {
    match e
    case NameRef(_) =>
    case Unary(_, arg) => ResolvedNames(env, started, arg, n);
    case Binary(_, left, right) =>
      if n in Names(left) {
        ResolvedNames(env, started, left, n);
      } else {
        ResolvedNames(env, started, right, n);
      }
  }

  /** A resolved expression has no chain that repeats a name or leaves the table. */
  lemma {:induction false} ResolvedPaths(env: Env, started: set<string>, e: Expr, p: seq<string>)
    requires Resolved(env, started, e).Value? && IsPath(env, e, p)
    ensures Distinct(p) && forall n | n in p :: n in env && n !in started
    decreases |p|
  {
    if p != [] {
      ResolvedNames(env, started, e, p[0]);
      if |p| > 1 {
        ResolvedPaths(env, started + {p[0]}, env[p[0]], p[1..]);
        assert p == [p[0]] + p[1..];
        assert forall i | 0 < i < |p| :: p[i] in p[1..];
      }
    }
  }

  /** Resolution succeeds only on grounded expressions, fails only on others, and on a grounded
      expression gives its meaning, whatever nesting depth (at least the table's size) is allowed. */
  lemma ResolutionExact(env: Env, e: Expr, depth: nat)
    requires depth >= |env|
    ensures Resolved(env, {}, e).Value? ==> Grounded(env, e)
    ensures Resolved(env, {}, e).Failed? ==> !Grounded(env, e)
    ensures Grounded(env, e) ==> Eval(env, e, depth) == Some(Resolved(env, {}, e))
  {
    var o := Resolved(env, {}, e);
    assert env.Keys - {} == env.Keys;
    ResolvedIsEval(env, {}, e, depth);
    if o.Value? {
      forall p | IsPath(env, e, p)
        ensures Distinct(p) && forall n | n in p :: n in env
      {
        ResolvedPaths(env, {}, e, p);
      }
    }
    if o.Failed? {
      var p := FailurePath(env, {}, e);
      var last := |p| - 1;
      assert p[last] in p;
      if p[last] in env {
        var i :| 0 <= i < last && p[i] == p[last];
        assert !Distinct(p);
      }
    }
  }

  /** Where no operation is undefined in C++, resolution succeeds exactly on grounded expressions. */
  lemma SucceedsIffGrounded(env: Env, e: Expr)
    requires !Resolved(env, {}, e).Trap?
    ensures Resolved(env, {}, e).Value? <==> Grounded(env, e)
  {
    ResolutionExact(env, e, |env|);
  }

  /** The error named is real: an undefined name that is reachable, or one that reaches itself. */
  lemma ErrorIsReal(env: Env, e: Expr) returns (p: seq<string>)
    requires Resolved(env, {}, e).Failed?
    ensures p != [] && IsPath(env, e, p) && Resolved(env, {}, e).error.name == p[|p| - 1]
    ensures Resolved(env, {}, e).error.Undefined? ==> p[|p| - 1] !in env
    ensures Resolved(env, {}, e).error.Circular? ==> exists i :: 0 <= i < |p| - 1 && p[i] == p[|p| - 1]
  {
    p := FailurePath(env, {}, e);
  }

  // ------------------------------------------------------------------
  // The value of a resolved expression
  // ------------------------------------------------------------------

  /** Operands that resolve are combined as in arithmetic; otherwise the first failing operand decides. */
  lemma ResolvedComputes(env: Env, started: set<string>, op: BinaryOp, left: Expr, right: Expr)
    ensures var l, r := Resolved(env, started, left), Resolved(env, started, right);
            var o := Resolved(env, started, Binary(op, left, right));
            if !l.Value? then o == l
            else if !r.Value? then o == r
            else Computes(op, l.v, r.v, o)
  {
    var l, r := Resolved(env, started, left), Resolved(env, started, right);
    if l.Value? && r.Value? {
      ApplyComputes(op, l.v, r.v);
    }
  }

  lemma ResolvedUnary(env: Env, started: set<string>, arg: Expr)
    ensures var v := Resolved(env, started, arg);
            var n, w := Resolved(env, started, Unary(Negate, arg)), Resolved(env, started, Unary(Reverse, arg));
            if !v.Value? then n == v && w == v
            else
              && (if v.v == -0x8000_0000 then n == Trap else n.Value? && n.v + v.v == 0)
              && w.Value? && forall i | 0 <= i < 32 :: Word(w.v)[i] == Word(v.v)[31 - i]
  {
    var v := Resolved(env, started, arg);
    if v.Value? {
      forall i | 0 <= i < 32
        ensures Word(ApplyUnary(Reverse, v.v).v)[i] == Word(v.v)[31 - i]
      {
        ReverseLaws(v.v, i);
      }
    }
  }
}
