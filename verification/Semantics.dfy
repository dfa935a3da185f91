/** What programs of the compiled fragment mean, independently of both engines. */
module Semantics {
  import opened Values
  import opened EnvStore
  import opened Compiler
  import opened Machine

  /** The closures and the environments that exist before the run. */
  datatype Program = Program(clos: seq<Clos>, envs: seq<EnvFrame>)

  /** `Timeout`: more than `fuel` nested applications. `Unclaimed`: a call with the wrong number of
      arguments or a built-in on operands it does not define, where the engines are not compared. */
  datatype Outcome<+T> = Val(value: T) | Error | Timeout | Unclaimed {
    predicate IsFailure() { !Val? }
    function PropagateFailure<U>(): Outcome<U>
      requires IsFailure()
    {
      match this case Error => Error case Timeout => Timeout case Unclaimed => Unclaimed
    }
    function Extract(): T requires Val? { value }
  }

  function Globals(p: Program, id: nat): Bindings
    requires id < |p.clos|
  {
    Flatten(p.envs, p.clos[id].env)
  }

  /** A three-armed `if` with nothing after its third arm. */
  predicate IfShape(e: Value) {
    && e.Pair? && e.cdr.Pair? && e.cdr.cdr.Pair? && e.cdr.cdr.cdr.Pair? && e.cdr.cdr.cdr.cdr == Null
  }

  predicate DefineShape(e: Value) {
    && e.Pair? && e.cdr.Pair? && e.cdr.cdr.Pair? && e.cdr.cdr.cdr == Null
  }

  /** Locals shadow what the closure's environment binds. */
  function EvalExpr(p: Program, g: Bindings, locals: map<Value, Value>, e: Value, fuel: nat): Outcome<Value>
    decreases fuel, e, 1
  {
    if e.Sym? then
      if e in locals then Val(locals[e]) else if e in g then Val(g[e].value) else Unclaimed
    else if !e.Pair? then Val(e)
    else if IsStatement(g, e, If) then
      if !IfShape(e) then Unclaimed
      else
        var test :- EvalExpr(p, g, locals, e.cdr.car, fuel);
        if test == Bool(false) then EvalExpr(p, g, locals, e.cdr.cdr.cdr.car, fuel)
        else EvalExpr(p, g, locals, e.cdr.cdr.car, fuel)
    else if IsStatement(g, e, Begin) then EvalSequence(p, g, locals, e.cdr, fuel)
    else if IsStatement(g, e, Define) then Unclaimed
    else
      var values :- EvalList(p, g, locals, e, fuel);
      if values == [] then Unclaimed
      else if fuel == 0 then Timeout
      else Apply(p, values[0], values[1..], fuel - 1)
  }

  /** The values of the elements, left to right. */
  function EvalList(p: Program, g: Bindings, locals: map<Value, Value>, list: Value, fuel: nat): Outcome<seq<Value>>
    decreases fuel, list, 0
  {
    if !list.Pair? then Val([])
    else
      var first :- EvalExpr(p, g, locals, list.car, fuel);
      var rest :- EvalList(p, g, locals, list.cdr, fuel);
      Val([first] + rest)
  }

  /** The value of the last element. */
  function EvalSequence(p: Program, g: Bindings, locals: map<Value, Value>, list: Value, fuel: nat): Outcome<Value>
    decreases fuel, list, 0
  {
    if !list.Pair? then Unclaimed
    else
      var first :- EvalExpr(p, g, locals, list.car, fuel);
      if list.cdr.Pair? then EvalSequence(p, g, locals, list.cdr, fuel) else Val(first)
  }

  /** Leading defines extend the locals in order; the rest is a sequence. */
  function EvalBody(p: Program, g: Bindings, locals: map<Value, Value>, body: Value, fuel: nat): Outcome<Value>
    decreases fuel, body, 1
  {
    if body.Pair? && IsStatement(g, body.car, Define) then
      if !DefineShape(body.car) then Unclaimed
      else
        var v :- EvalExpr(p, g, locals, body.car.cdr.cdr.car, fuel);
        EvalBody(p, g, locals[body.car.cdr.car := v], body.cdr, fuel)
    else EvalSequence(p, g, locals, body, fuel)
  }

  /** Closures run their bodies with the parameters bound; anything else cannot be applied. */
  function Apply(p: Program, f: Value, args: seq<Value>, fuel: nat): Outcome<Value>
    decreases fuel
  {
    match f
    case Closure(id) =>
      if id >= |p.clos| then Unclaimed
      else if p.clos[id].compiled then
        if |p.clos[id].code| != 2 || !p.clos[id].code[0].Prim? then Unclaimed
        else
          match PrimOf(p.clos[id].code[0].op, args)
          case Result(v) => Val(v)
          case Untouched => Val(f)
          case PrimError => Error
          case PrimUndefined => Unclaimed
      else if |args| != ListLength(p.clos[id].args) then Unclaimed
      else EvalBody(p, Globals(p, id), BindArgs(map[], p.clos[id].args, args), p.clos[id].definition, fuel)
    case Run(SetPtr) => Unclaimed
    case _ => Error
  }
}
