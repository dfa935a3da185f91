/** The fragment the compiler handles, and machines that run a program of it. */
module WellFormed {
  import opened Values
  import opened EnvStore
  import opened Compiler
  import opened Machine
  import opened Semantics

  /** A first-class value: no special form, macro or internal closure anywhere inside. */
  predicate Plain(p: Program, v: Value) {
    match v
    case Pair(car, cdr) => Plain(p, car) && Plain(p, cdr)
    case Closure(id) => FIRST_FREE <= id < |p.clos|
    case Run(_) => false
    case Rules(_, _) => false
    case _ => true
  }

  ghost predicate AllPlain(p: Program, vs: seq<Value>) {
    forall i | 0 <= i < |vs| :: Plain(p, vs[i])
  }

  /** `all` are the closure's parameters and locals; `known` those already bound at this point. */
  predicate WfAtom(p: Program, g: Bindings, all: set<Value>, known: set<Value>, e: Value) {
    if e.Sym? then e in known || (e !in all && e in g && Plain(p, g[e].value)) else Plain(p, e)
  }

  /** Calls, three-armed `if`s whose parts are not bare `()`, and `begin`s: with several expressions in
      tail position, with one elsewhere. */
  predicate WfExpr(p: Program, g: Bindings, all: set<Value>, known: set<Value>, e: Value, tail: bool)
    decreases e, 1
  {
    if !e.Pair? then WfAtom(p, g, all, known, e)
    else if IsStatement(g, e, If) then
      && IfShape(e)
      && e.cdr.car != Null && WfExpr(p, g, all, known, e.cdr.car, false)
      && e.cdr.cdr.car != Null && WfExpr(p, g, all, known, e.cdr.cdr.car, tail)
      && e.cdr.cdr.cdr.car != Null && WfExpr(p, g, all, known, e.cdr.cdr.cdr.car, tail)
    else if IsStatement(g, e, Begin) then
      && WfSequence(p, g, all, known, e.cdr, tail)
      && (tail || e.cdr.cdr == Null)
    else if IsStatement(g, e, Define) then false
    else WfList(p, g, all, known, e)
  }

  predicate WfList(p: Program, g: Bindings, all: set<Value>, known: set<Value>, list: Value)
    decreases list, 0
  {
    if list.Pair? then WfExpr(p, g, all, known, list.car, false) && WfList(p, g, all, known, list.cdr)
    else list == Null
  }

  predicate WfSequence(p: Program, g: Bindings, all: set<Value>, known: set<Value>, list: Value, tail: bool)
    decreases list, 0
  {
    && list.Pair?
    && WfExpr(p, g, all, known, list.car, tail && list.cdr == Null)
    && (list.cdr == Null || WfSequence(p, g, all, known, list.cdr, tail))
  }

  /** Leading defines of fresh names whose initialisers see only what is already bound. */
  predicate WfBody(p: Program, g: Bindings, all: set<Value>, known: set<Value>, body: Value)
    decreases body, 1
  {
    if body.Pair? && IsStatement(g, body.car, Define) then
      && DefineShape(body.car)
      && var name := body.car.cdr.car;
      && name.Sym? && name in all && name !in known
      && WfExpr(p, g, all, known, body.car.cdr.cdr.car, false)
      && WfBody(p, g, all, known + {name}, body.cdr)
    else WfSequence(p, g, all, known, body, true)
  }

  function ParamSet(args: Value): set<Value> {
    if args.Pair? then {args.car} + ParamSet(args.cdr) else {}
  }

  function DefinedNames(g: Bindings, body: Value): set<Value> {
    if body.Pair? && IsStatement(g, body.car, Define) then
      (if body.car.cdr.Pair? then {body.car.cdr.car} else {}) + DefinedNames(g, body.cdr)
    else {}
  }

  function LocalNames(g: Bindings, args: Value, body: Value): set<Value> {
    ParamSet(args) + DefinedNames(g, body)
  }

  /** The compiler tells special forms by the closure's environment alone. */
  predicate NoFormNames(g: Bindings, all: set<Value>) {
    forall v | v in all :: !IsToken(g, v, If) && !IsToken(g, v, Begin) && !IsToken(g, v, Define)
  }

  predicate WfClosure(p: Program, id: nat)
    requires id < |p.clos|
  {
    var c := p.clos[id];
    var g := Globals(p, id);
    var all := LocalNames(g, c.args, c.definition);
    && c.env < |p.envs|
    && NoFormNames(g, all)
    && WfBody(p, g, all, ParamSet(c.args), c.definition)
  }

  predicate IsBuiltin(c: Clos) {
    |c.code| == 2 && c.code[0].Prim? && c.code[1] == Return
  }

  ghost predicate WfProgram(p: Program) {
    && |p.clos| >= FIRST_FREE
    && (forall id | 0 <= id < FIRST_FREE :: p.clos[id] == SINGLETONS[id])
    && forall id | FIRST_FREE <= id < |p.clos| ::
         if p.clos[id].compiled then IsBuiltin(p.clos[id]) else WfClosure(p, id)
  }

  /** `c` is what a run has made of `c0`: it may have been counted, and compiled. */
  ghost predicate ClosureConforms(p: Program, id: nat, c: Clos)
    requires id < |p.clos|
  {
    var c0 := p.clos[id];
    && c.definition == c0.definition && c.args == c0.args && c.env == c0.env
    && (c0.compiled ==> c == c0)
    && (!c0.compiled && c.compiled ==>
          CompileClosure(Globals(p, id), c0.args, c0.definition) == Code(c.code, c.closed))
  }

  /** The machine's tables belong to the program: closures as declared, its environments unchanged. */
  ghost predicate Conforms(p: Program, st: VM) {
    && |st.clos| == |p.clos|
    && Extends(p.envs, st.envs)
    && forall id | 0 <= id < |p.clos| :: ClosureConforms(p, id, st.clos[id])
  }
}
