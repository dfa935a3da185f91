/** The mixed-mode virtual machine as a step function on its live state. */
module Machine {
  import opened Values
  import opened EnvStore
  import opened Compiler
  import SyntaxRules

  datatype Mode = Interpreted | Compiled

  /** What a frame keeps for the mode it will resume. */
  datatype Saved = SavedIp(ip: nat) | SavedPtr(ptr: Value, env: nat)

  datatype Frame = Frame(closure: nat, sp: nat, argnum: nat, saved: Saved)

  /** `definition`, `args` and `env` drive the tree walker; `code` and `closed` the threaded code. */
  datatype Clos = Clos(
    definition: Value, args: Value, env: nat,
    compiled: bool, numCalls: nat, code: seq<Instr>, closed: seq<NodeRef>)

  /** `Undefined` marks states from which the C program's behaviour is undefined. */
  datatype Status = Running | Done(result: Value) | Failed | Undefined

  /** `stack` holds the live slots, so `sp` is its length; `frames` likewise stands for `callp`. */
  datatype VM = VM(
    stack: seq<Value>, argnum: nat, frames: seq<Frame>,
    closure: nat, mode: Mode, ip: nat, ptr: Value, env: nat,
    clos: seq<Clos>, envs: seq<EnvFrame>, status: Status)

  // The singleton closures come first in the closure table.
  const RETURN_LAST: nat := 0
  const INTERN_DEFINE: nat := 1
  const INTERN_SET: nat := 2
  const INTERN_IF: nat := 3
  const FIRST_FREE: nat := 4

  function Builtin(code: seq<Instr>): Clos {
    Clos(Null, Null, 0, true, 0, code, [])
  }

  const SINGLETONS: seq<Clos> := [
    Builtin([ReturnLast]),
    Builtin([InternDefine, Return]),
    Builtin([InternSet, Return]),
    Builtin([InternIf, Return])]

  // ---------- the stack and the frame protocol ----------

  function Fail(st: VM): VM { st.(status := Failed) }

  function Undef(st: VM): VM { st.(status := Undefined) }

  function Push(st: VM, v: Value): VM {
    st.(stack := st.stack + [v], argnum := st.argnum + 1)
  }

  /** `vm_call_eval`: suspend the current list and evaluate `ptr` in a new frame. */
  function CallEval(st: VM, ptr: Value): VM {
    var frame := Frame(st.closure, |st.stack|, st.argnum, SavedPtr(st.ptr, st.env));
    st.(frames := st.frames + [frame], argnum := 0, ptr := ptr)
  }

  /** `vm_call_return`: the slot at the frame's `sp` is the result. With no frame the run is over. */
  function CallReturn(st: VM): VM {
    if st.frames == [] then
      if st.stack == [] then Undef(st) else st.(status := Done(st.stack[0]), stack := [])
    else
      var top := |st.frames| - 1;
      var f := st.frames[top];
      if f.sp >= |st.stack| then Undef(st)
      else
        var st' := st.(stack := st.stack[..f.sp + 1], argnum := f.argnum + 1, closure := f.closure,
                       frames := st.frames[..top]);
        match f.saved
        case SavedIp(ip) => st'.(mode := Compiled, ip := ip)
        case SavedPtr(ptr, env) => st'.(mode := Interpreted, ptr := ptr, env := env)
  }

  // ---------- application ----------

  /** `vm_load_lambda_args` on matching counts: parameter i names argument i. */
  function BindArgs(vars: map<Value, Value>, params: Value, args: seq<Value>): map<Value, Value>
    requires |args| == ListLength(params)
    decreases params
  {
    if params.Pair? then BindArgs(vars[params.car := args[0]], params.cdr, args[1..]) else vars
  }

  /** Count an interpreted call, and compile on the third. */
  datatype Warmed = Warm(clos: Clos) | WarmFailure | WarmUndefined

  function CountCall(envs: seq<EnvFrame>, c: Clos): Warmed {
    var c := c.(numCalls := c.numCalls + 1);
    if c.numCalls < 3 then Warm(c)
    else
      match CompileClosure(Flatten(envs, c.env), c.args, c.definition)
      case Code(code, closed) => Warm(c.(code := code, closed := closed, compiled := true))
      case ScopeFailure => WarmFailure
      case NullDereference => WarmUndefined
  }

  /** Start the body of a closure that was not compiled before this call. */
  function EnterInterpreted(st: VM, id: nat): VM
    requires id < |st.clos| && 0 < st.argnum <= |st.stack|
  {
    var c := st.clos[id];
    if c.env >= |st.envs| then Undef(st)
    else
      match CountCall(st.envs, c)
      case WarmFailure => Fail(st)
      case WarmUndefined => Undef(st)
      case Warm(c') =>
        var base := |st.stack| - st.argnum;
        if ListLength(c.args) + 1 != st.argnum then Fail(st)
        else
          var frame := EnvFrame(BindArgs(map[], c.args, st.stack[base + 1..]), Some(c.env));
          st.(closure := id, mode := Interpreted, clos := st.clos[id := c'], envs := st.envs + [frame],
              env := |st.envs|, ptr := c.definition, stack := st.stack[..base] + [Closure(RETURN_LAST)], argnum := 1)
  }

  /** `vm_call_apply`. */
  function CallApply(st: VM): VM {
    if st.argnum == 0 || st.argnum > |st.stack| then Undef(st)
    else
      match st.stack[|st.stack| - st.argnum]
      case Closure(id) =>
        if id >= |st.clos| then Undef(st)
        else if st.clos[id].compiled then st.(closure := id, mode := Compiled, ip := 0)
        else EnterInterpreted(st, id)
      case Run(SetPtr) =>
        if st.argnum != 2 then Fail(st)
        else st.(ptr := st.stack[|st.stack| - 1], stack := st.stack[..|st.stack| - 2], argnum := 0)
      case _ => Fail(st)
  }

  // ---------- the tree walker ----------

  function NewClosure(st: VM, args: Value, body: Value): VM {
    st.(clos := st.clos + [Clos(body, args, st.env, false, 0, [], [])])
  }

  function HandleLambda(st: VM, expr: Value): VM {
    if !expr.Pair? then Undef(st)
    else if (expr.car.Pair? || expr.car.Null?) && expr.cdr.Pair? then
      CallReturn(Push(NewClosure(st, expr.car, expr.cdr), Closure(|st.clos|)))
    else st
  }

  function HandleDefine(st: VM, kind: RunType, expr: Value): VM {
    if !expr.Pair? then Undef(st)
    else
      var st1 := Push(st, Closure(if kind == SetBang then INTERN_SET else INTERN_DEFINE));
      if expr.car.Sym? then Push(st1, expr.car).(ptr := expr.cdr)
      else if expr.car.Pair? then
        Push(Push(NewClosure(st1, expr.car.cdr, expr.cdr), expr.car.car), Closure(|st.clos|)).(ptr := Null)
      else st1
  }

  /** `vm_handle_if`: leave set-ptr waiting for the chosen branch, and intern-if for the test. */
  function HandleIf(st: VM, expr: Value): VM {
    if !expr.Pair? then Undef(st)
    else if !expr.cdr.Pair? || !expr.cdr.cdr.Pair? then Fail(st)
    else
      var st1 := CallEval(Push(st, Run(SetPtr)).(ptr := Null), Null);
      var st2 := Push(Push(Push(st1, Closure(INTERN_IF)), expr.cdr.car), expr.cdr.cdr.car);
      CallEval(st2, expr.car)
  }

  function HandleSyntaxRules(st: VM, expr: Value): VM {
    if !expr.Pair? || !(expr.car.Pair? || expr.car.Null?) || !expr.cdr.Pair? then Undef(st)
    else Push(Push(st, Closure(RETURN_LAST)), Rules(expr.car, expr.cdr)).(ptr := Null)
  }

  function HandleSpecialForm(st: VM, kind: RunType, expr: Value): VM {
    match kind
    case Lambda => HandleLambda(st, expr)
    case Define => HandleDefine(st, kind, expr)
    case SetBang => HandleDefine(st, kind, expr)
    case DefineSyntax => HandleDefine(st, kind, expr)
    case If => HandleIf(st, expr)
    case Begin => Push(st, Closure(RETURN_LAST)).(ptr := expr)
    case Quote => Push(Push(st, Closure(RETURN_LAST)), if expr.Pair? then expr.car else Null).(ptr := Null)
    case SyntaxRules => HandleSyntaxRules(st, expr)
    case _ => st
  }

  /** A macro use: evaluate the expansion as the body of a `begin`. */
  function HandleMacro(st: VM, rules: Value, form: Value): VM
    requires rules.Rules?
  {
    match SyntaxRules.ExpandRules(rules.keywords, rules.patterns, form)
    case Malformed => Undef(st)
    case NoMatch => Fail(st)
    case Expanded(value) =>
      var st1 := Push(Push(st, Closure(RETURN_LAST)), Null).(ptr := Null);
      var st2 := Push(Push(st1, Closure(RETURN_LAST)), Null);
      Push(CallEval(st2, value), Closure(RETURN_LAST))
  }

  /** `vm_step_interpreter`. */
  function StepInterpreted(st: VM): VM {
    match st.ptr
    case Pair(head, rest) =>
      var st1 := st.(ptr := rest);
      if head.Pair? then CallEval(st1, head)
      else if head.Sym? then
        match Lookup(st.envs, st.env, head)
        case None => Fail(st)
        case Some(v) =>
          if st.argnum == 0 && IsSpecialForm(v) then HandleSpecialForm(st1, v.kind, rest)
          else if st.argnum == 0 && v.Rules? then HandleMacro(st1, v, st.ptr)
          else Push(st1, v)
      else Push(st1, head)
    case Null => CallApply(st)
    case atom =>
      if atom.Sym? then
        match Lookup(st.envs, st.env, atom)
        case None => Fail(st)
        case Some(v) => CallReturn(st.(stack := st.stack + [v]))
      else CallReturn(st.(stack := st.stack + [atom]))
  }

  // ---------- threaded code ----------

  /** What a built-in leaves: a result, its operands untouched, an error, or no defined result. */
  datatype PrimResult = Result(value: Value) | Untouched | PrimError | PrimUndefined

  predicate AllInts(args: seq<Value>) {
    forall a | a in args :: a.Int?
  }

  function Sum(args: seq<Value>): int
    requires AllInts(args)
  {
    if args == [] then 0 else args[0].n + Sum(args[1..])
  }

  function Product(args: seq<Value>): int
    requires AllInts(args)
  {
    if args == [] then 1 else args[0].n * Product(args[1..])
  }

  /** `vm_op_div` on words: the last argument divides first, and no quotient is tagged again on the way. `None` is a
      division by zero. */
  function Divided(word: nat, divisors: seq<Value>): Option<nat>
    requires AllInts(divisors)
    decreases |divisors|
  {
    if divisors == [] then Some(word)
    else
      var last := divisors[|divisors| - 1];
      if last.n == 0 then None else Divided(word / (4 * last.n), divisors[..|divisors| - 1])
  }

  /** The built-ins on the arguments above the function's own slot. */
  function PrimOf(op: Primitive, args: seq<Value>): PrimResult {
    match op
    case Add => if AllInts(args) then Result(Int(Sum(args) % FIXNUM_LIMIT)) else PrimUndefined
    case Mul => if AllInts(args) then Result(Int(Product(args) % FIXNUM_LIMIT)) else PrimUndefined
    case Sub =>
      if args != [] && AllInts(args) then Result(Int((args[0].n - Sum(args[1..])) % FIXNUM_LIMIT))
      else PrimUndefined
    case Div =>
      if args == [] || !AllInts(args) then PrimUndefined
      else
        var word := Divided(4 * args[0].n, args[1..]);
        if word.None? then PrimError else Result(Int(word.value % FIXNUM_LIMIT))
    case Less =>
      if |args| != 2 then PrimError
      else if AllInts(args) then Result(Bool(args[0].n < args[1].n)) else PrimUndefined
    case Greater =>
      if |args| != 2 then PrimError
      else if AllInts(args) then Result(Bool(args[0].n > args[1].n)) else PrimUndefined
    case Equal =>
      if |args| != 2 then PrimError
      else if (args[0].Pair? && args[1].Pair?) || (args[0].Rules? && args[1].Rules?) then PrimUndefined
      else Result(Bool(args[0] == args[1]))
    case IsNull => if |args| != 1 then Untouched else Result(Bool(args[0].Null?))
    case IsPair => if |args| != 1 then Untouched else Result(Bool(args[0].Pair?))
    case Cons => if |args| != 2 then PrimError else Result(Pair(args[0], args[1]))
    case Car =>
      if |args| != 1 || !args[0].Pair? then PrimError else Result(args[0].car)
    case Cdr =>
      if |args| != 1 || !args[0].Pair? then PrimError else Result(args[0].cdr)
  }

  function Next(st: VM): VM { st.(ip := st.ip + 1) }

  function OpPrim(st: VM, op: Primitive): VM {
    if st.argnum == 0 || st.argnum > |st.stack| then Undef(st)
    else
      var base := |st.stack| - st.argnum;
      match PrimOf(op, st.stack[base + 1..])
      case Result(v) => Next(st.(stack := st.stack[..base] + [v], argnum := 1))
      case Untouched => Next(st)
      case PrimError => Fail(st)
      case PrimUndefined => Undef(st)
  }

  function OpInternSet(st: VM, recurse: bool): VM {
    if st.argnum != 3 then Fail(st)
    else if |st.stack| < 3 || st.env >= |st.envs| then Undef(st)
    else
      var top := |st.stack|;
      var datum, sym := st.stack[top - 1], st.stack[top - 2];
      if !sym.Sym? then Fail(st)
      else
        var envs :=
          if recurse then SetVarRecurse(st.envs, st.env, sym, datum) else SetVar(st.envs, st.env, sym, datum);
        Next(st.(stack := st.stack[..top - 2], argnum := 1, envs := envs))
  }

  function OpInternIf(st: VM): VM {
    if st.argnum != 4 then Next(st)
    else if |st.stack| < 4 then Undef(st)
    else
      var top := |st.stack|;
      var chosen := if st.stack[top - 1] == Bool(false) then st.stack[top - 2] else st.stack[top - 3];
      Next(st.(stack := st.stack[..top - 4] + [chosen], argnum := 1))
  }

  /** `vm_op_do_call`: the operand is the callee's slot, counted from the caller's base. */
  function OpDoCall(st: VM, arg: nat): VM {
    if arg > st.argnum || st.argnum > |st.stack| then Undef(st)
    else
      var frame := Frame(st.closure, |st.stack| - st.argnum + arg, arg, SavedIp(st.ip + 1));
      CallApply(st.(frames := st.frames + [frame], argnum := st.argnum - arg))
  }

  /** `vm_op_do_tailcall`: move the callee and its arguments down to the base, and reuse the frame. */
  function OpDoTailCall(st: VM, arg: nat): VM {
    if arg > st.argnum || st.argnum > |st.stack| then Undef(st)
    else
      var base := |st.stack| - st.argnum;
      CallApply(st.(stack := st.stack[..base] + st.stack[base + arg..], argnum := st.argnum - arg, ip := 0))
  }

  function OpJumpIfFalse(st: VM, target: nat): VM {
    if st.argnum == 0 || st.stack == [] then Undef(st)
    else
      var top := |st.stack| - 1;
      var st1 := st.(stack := st.stack[..top], argnum := st.argnum - 1);
      if st.stack[top] == Bool(false) then st1.(ip := target) else Next(st1)
  }

  function OpClosureRef(st: VM, slot: nat): VM {
    if st.closure >= |st.clos| || slot >= |st.clos[st.closure].closed| then Undef(st)
    else
      var node := st.clos[st.closure].closed[slot];
      if node.env >= |st.envs| || node.key !in st.envs[node.env].vars then Undef(st)
      else Next(Push(st, st.envs[node.env].vars[node.key]))
  }

  function OpStackRef(st: VM, slot: nat): VM {
    if slot >= st.argnum || st.argnum > |st.stack| then Undef(st)
    else Next(Push(st, st.stack[|st.stack| - st.argnum + slot]))
  }

  /** `vm_op_return_last`: the top value becomes the activation's result. */
  function OpReturnLast(st: VM): VM {
    if st.argnum == 0 || st.argnum > |st.stack| then Undef(st)
    else
      CallReturn(st.(stack := st.stack[..|st.stack| - st.argnum] + [st.stack[|st.stack| - 1]], argnum := st.argnum - 1))
  }

  function Execute(st: VM, instr: Instr): VM {
    match instr
    case DoCall(arg) => OpDoCall(st, arg)
    case DoTailCall(arg) => OpDoTailCall(st, arg)
    case JumpIfFalse(target) => OpJumpIfFalse(st, target)
    case Jump(target) => st.(ip := target)
    case PushConst(v) => Next(Push(st, v))
    case ClosureRef(slot) => OpClosureRef(st, slot)
    case StackRef(slot) => OpStackRef(st, slot)
    case ReturnLast => OpReturnLast(st)
    case Return => CallReturn(st)
    case Prim(op) => OpPrim(st, op)
    case InternDefine => OpInternSet(st, false)
    case InternSet => OpInternSet(st, true)
    case InternIf => OpInternIf(st)
  }

  /** `vm_step_compiled`. */
  function StepCompiled(st: VM): VM {
    if st.closure >= |st.clos| || st.ip >= |st.clos[st.closure].code| then Undef(st)
    else Execute(st, st.clos[st.closure].code[st.ip])
  }

  /** One turn of `vm_run`. */
  function Step(st: VM): VM {
    if !st.status.Running? then st
    else if st.mode == Compiled then StepCompiled(st)
    else StepInterpreted(st)
  }
}
