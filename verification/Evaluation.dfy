/** Whole runs: what evaluating an expression of a program returns, and a file of them. */
module Evaluation {
  import opened Values
  import opened EnvStore
  import opened Compiler
  import opened Machine
  import opened Semantics
  import opened WellFormed
  import opened FrameDiscipline
  import opened Activations
  import opened Peaks
  import opened InterpreterProof
  import opened Transparency
  import SyntaxRules

  /** `vm_evaluate_expr` before it runs: walk `e` in the environment `c`. */
  function Evaluate(st: VM, c: nat, e: Value): VM {
    st.(ptr := e, status := Running, argnum := 0, env := c, mode := Interpreted)
  }

  /** Nothing is left on the stacks, and the tables are the program's. */
  ghost predicate Idle(p: Program, st: VM) {
    st.stack == [] && st.frames == [] && Conforms(p, st)
  }

  function Meaning(p: Program, c: nat, e: Value): nat -> Outcome<Value> {
    (fuel: nat) => EvalExpr(p, Flatten(p.envs, c), map[], e, fuel)
  }

  /** A whole expression of the fragment: well formed with nothing local, and with no call inside it, at any depth, that
      has the wrong number of arguments or an operand its built-in does not define. */
  ghost predicate Whole(p: Program, b: nat, c: nat, e: Value) {
    && c < |p.envs| && e != Null
    && WfExpr(p, Flatten(p.envs, c), {}, {}, e, true) && PeakElem(Flatten(p.envs, c), e, 1) <= b
    && forall fuel: nat {:trigger Meaning(p, c, e)(fuel)} :: !Meaning(p, c, e)(fuel).Unclaimed?
  }

  lemma EvaluationRunsAs(p: Program, b: nat, c: nat, st: VM, e: Value)
    requires WfProgram(p) && Bounded(p, b) && Idle(p, st) && Whole(p, b, c, e)
    ensures RunsAs(p, b, st.envs, Evaluate(st, c, e), Meaning(p, c, e))
  {
    hide Ends, Runs, WfProgram, Bounded, ApplyClaim;
    var start, m := Evaluate(st, c, e), Meaning(p, c, e);
    SameTables(p, st, start);
    ConformsExtends(p, start);
    var none: map<Value, Value> := map[];
    assert none.Keys == {};
    forall fuel: nat ensures !m(fuel).Unclaimed? && EndsFor(p, b, st.envs, start, m(fuel), fuel) {
      if fuel > 0 { ApplyCorrect(p, b, fuel - 1); }
      var n, post := ExprSim(p, b, c, {}, none, e, 1, start, fuel);
      assert m(fuel) == EvalExpr(p, Flatten(p.envs, c), map[], e, fuel);
    }
  }

  // ---------- runs with no caller ----------

  /** `st` runs until the last return, with `v` in the first slot. */
  ghost predicate Returns(st: VM, v: Value) {
    exists n: nat :: After(st, n).status == Done(v)
  }

  ghost predicate Fails(st: VM) {
    exists n: nat :: After(st, n).status.Failed?
  }

  ghost predicate Diverges(st: VM) {
    forall n: nat :: After(st, n).status.Running?
  }

  lemma {:induction false} RunIsAfter(b: nat, st: VM, n: nat, d: nat, post: VM)
    requires Runs(b, st, n, d, post)
    ensures After(st, n) == post
    decreases n
  {
    hide Step;
    if n > 0 { RunIsAfter(b, Step(st), n - 1, d, post); }
  }

  /** A run that has stopped stays as it stopped. */
  lemma StoppedOnce(st: VM, n: nat, k: nat)
    requires !After(st, n).status.Running? && n <= k
    ensures After(st, k) == After(st, n)
  {
    hide Step;
    AfterSum(st, n, k - n);
    Halted(After(st, n), k - n);
  }

  /** Whatever the fuel, the run has come as far as the meaning says. */
  lemma RunTo(p: Program, b: nat, envs: seq<EnvFrame>, start: VM, m: nat -> Outcome<Value>, fuel: nat) returns (n: nat)
    requires RunsAs(p, b, envs, start, m) && start.frames == []
    ensures match m(fuel)
            case Val(v) => After(start, n).status == Done(v) && Conforms(p, After(start, n))
            case Error => After(start, n).status.Failed?
            case Timeout => n >= fuel && After(start, n).status.Running?
            case Unclaimed => false
  {
    hide Runs, RunsAs, Conforms;
    var post;
    n, post := UseRunsAs(p, b, envs, start, m, fuel);
    RunIsAfter(b, start, n, 0, post);
  }

  /** How a stopped run ended is what is meant with more fuel than it took steps. */
  lemma StoppedMeans(p: Program, b: nat, envs: seq<EnvFrame>, start: VM, m: nat -> Outcome<Value>, n: nat)
    requires RunsAs(p, b, envs, start, m) && start.frames == [] && !After(start, n).status.Running?
    ensures match m(n + 1)
            case Val(v) => After(start, n).status == Done(v) && Conforms(p, After(start, n))
            case Error => After(start, n).status.Failed?
            case _ => false
  {
    hide RunsAs, Conforms, After;
    var k := RunTo(p, b, envs, start, m, n + 1);
    if k <= n {
      if !After(start, k).status.Running? { StoppedOnce(start, k, n); }
    } else {
      StoppedOnce(start, n, k);
    }
  }

  /** Evaluating an expression returns a value if and only if it means that value, fails if and only if it means an
      error, and runs for ever if and only if no fuel suffices. */
  lemma EvaluationMeans(p: Program, b: nat, c: nat, st: VM, e: Value)
    requires WfProgram(p) && Bounded(p, b) && Idle(p, st) && Whole(p, b, c, e)
    ensures forall v :: Returns(Evaluate(st, c, e), v) <==> exists fuel: nat :: Meaning(p, c, e)(fuel) == Val(v)
    ensures Fails(Evaluate(st, c, e)) <==> exists fuel: nat :: Meaning(p, c, e)(fuel) == Error
    ensures Diverges(Evaluate(st, c, e)) <==> forall fuel: nat :: Meaning(p, c, e)(fuel) == Timeout
  {
    hide RunsAs, After, Whole, WfProgram, Bounded;
    var start, m := Evaluate(st, c, e), Meaning(p, c, e);
    EvaluationRunsAs(p, b, c, st, e);
    forall v ensures Returns(start, v) <==> exists fuel: nat :: m(fuel) == Val(v) {
      if n: nat :| After(start, n).status == Done(v) { StoppedMeans(p, b, st.envs, start, m, n); }
      if fuel: nat :| m(fuel) == Val(v) { var n := RunTo(p, b, st.envs, start, m, fuel); }
    }
    if n: nat :| After(start, n).status.Failed? { StoppedMeans(p, b, st.envs, start, m, n); }
    if fuel: nat :| m(fuel) == Error { var n := RunTo(p, b, st.envs, start, m, fuel); }
    if fuel: nat :| m(fuel) != Timeout { var n := RunTo(p, b, st.envs, start, m, fuel); }
    if n: nat :| !After(start, n).status.Running? { StoppedMeans(p, b, st.envs, start, m, n); }
  }

  // ---------- one expression after the other ----------

  ghost predicate CleanIfDone(st: VM) {
    st.status.Done? ==> st.stack == [] && st.frames == []
  }

  lemma ReturnIsClean(st: VM)
    requires st.status.Running?
    ensures CleanIfDone(CallReturn(st))
  {
  }

  lemma ApplyIsClean(st: VM)
    requires st.status.Running?
    ensures CleanIfDone(CallApply(st))
  {
    hide CountCall;
  }

  lemma InternIsClean(st: VM, recurse: bool)
    requires st.status.Running?
    ensures CleanIfDone(OpInternSet(st, recurse)) && CleanIfDone(OpInternIf(st))
  {
    hide SetVar, SetVarRecurse;
  }

  lemma PrimIsClean(st: VM, op: Primitive)
    requires st.status.Running?
    ensures CleanIfDone(OpPrim(st, op))
  {
    hide PrimOf;
  }

  lemma ExecuteIsClean(st: VM, instr: Instr)
    requires st.status.Running?
    ensures CleanIfDone(Execute(st, instr))
  {
    hide CallReturn, CallApply, OpPrim, OpInternSet, OpInternIf;
    match instr
    case DoCall(arg) =>
      if arg <= st.argnum <= |st.stack| {
        var frame := Frame(st.closure, |st.stack| - st.argnum + arg, arg, SavedIp(st.ip + 1));
        ApplyIsClean(st.(frames := st.frames + [frame], argnum := st.argnum - arg));
      }
    case DoTailCall(arg) =>
      if arg <= st.argnum <= |st.stack| {
        var base := |st.stack| - st.argnum;
        ApplyIsClean(st.(stack := st.stack[..base] + st.stack[base + arg..], argnum := st.argnum - arg, ip := 0));
      }
    case ReturnLast =>
      if 0 < st.argnum <= |st.stack| {
        var top := [st.stack[|st.stack| - 1]];
        ReturnIsClean(st.(stack := st.stack[..|st.stack| - st.argnum] + top, argnum := st.argnum - 1));
      }
    case Return => ReturnIsClean(st);
    case Prim(op) => PrimIsClean(st, op);
    case InternDefine => InternIsClean(st, false);
    case InternSet => InternIsClean(st, true);
    case InternIf => InternIsClean(st, true);
    case _ =>
  }

  lemma FormIsClean(st: VM, kind: RunType, expr: Value)
    requires st.status.Running?
    ensures CleanIfDone(HandleSpecialForm(st, kind, expr))
  {
    hide CallReturn;
    if kind == Lambda && expr.Pair? && (expr.car.Pair? || expr.car.Null?) && expr.cdr.Pair? {
      ReturnIsClean(Push(NewClosure(st, expr.car, expr.cdr), Closure(|st.clos|)));
    }
  }

  lemma MacroIsClean(st: VM, rules: Value, form: Value)
    requires rules.Rules? && st.status.Running?
    ensures CleanIfDone(HandleMacro(st, rules, form))
  {
    hide SyntaxRules.ExpandRules;
  }

  lemma WalkIsClean(st: VM)
    requires st.status.Running?
    ensures CleanIfDone(StepInterpreted(st))
  {
    hide Lookup, CallReturn, CallApply, HandleSpecialForm, HandleMacro;
    match st.ptr
    case Pair(head, rest) =>
      if head.Sym? && Lookup(st.envs, st.env, head).Some? {
        var v := Lookup(st.envs, st.env, head).value;
        if IsSpecialForm(v) { FormIsClean(st.(ptr := rest), v.kind, rest); }
        if v.Rules? { MacroIsClean(st.(ptr := rest), v, st.ptr); }
      }
    case Null => ApplyIsClean(st);
    case atom =>
      var v := if atom.Sym? then Lookup(st.envs, st.env, atom) else Some(atom);
      if v.Some? { ReturnIsClean(st.(stack := st.stack + [v.value])); }
  }

  /** The last return leaves nothing on the stacks. */
  lemma StepIsClean(st: VM)
    requires st.status.Running?
    ensures CleanIfDone(Step(st))
  {
    hide Execute, StepInterpreted;
    if st.mode == Mode.Compiled {
      if st.closure < |st.clos| && st.ip < |st.clos[st.closure].code| {
        ExecuteIsClean(st, st.clos[st.closure].code[st.ip]);
      }
    } else {
      WalkIsClean(st);
    }
  }

  lemma {:induction false} ReturnedIsClean(st: VM, n: nat)
    requires st.status.Running? && After(st, n).status.Done?
    ensures After(st, n).stack == [] && After(st, n).frames == []
    decreases n
  {
    hide Step;
    if Step(st).status.Running? {
      ReturnedIsClean(Step(st), n - 1);
    } else {
      Halted(Step(st), n - 1);
      StepIsClean(st);
    }
  }

  /** The loop over a file: each expression is evaluated by the machine the ones before it left. */
  ghost predicate Session(c: nat, st: VM, es: seq<Value>, vs: seq<Value>)
    requires |es| == |vs|
    decreases |es|
  {
    es != [] ==> exists n: nat :: SessionGoesOn(c, st, es, vs, n)
  }

  ghost predicate SessionGoesOn(c: nat, st: VM, es: seq<Value>, vs: seq<Value>, n: nat)
    requires |es| == |vs| && es != []
    decreases |es|, 0
  {
    var post := After(Evaluate(st, c, es[0]), n);
    post.status == Done(vs[0]) && Session(c, post, es[1..], vs[1..])
  }

  ghost predicate MeansValue(p: Program, c: nat, e: Value, v: Value) {
    exists fuel: nat :: Meaning(p, c, e)(fuel) == Val(v)
  }

  /** The machine after an expression is fit for the next. */
  lemma IdleAgain(p: Program, b: nat, c: nat, st: VM, e: Value, n: nat)
    requires WfProgram(p) && Bounded(p, b) && Idle(p, st) && Whole(p, b, c, e)
    requires After(Evaluate(st, c, e), n).status.Done?
    ensures Idle(p, After(Evaluate(st, c, e), n))
  {
    hide RunsAs, After, Whole, WfProgram, Bounded, Conforms;
    EvaluationRunsAs(p, b, c, st, e);
    StoppedMeans(p, b, st.envs, Evaluate(st, c, e), Meaning(p, c, e), n);
    ReturnedIsClean(Evaluate(st, c, e), n);
  }

  /** A file's expressions return, one after the other, exactly the values each of them means by itself, whatever the
      ones before it have compiled. */
  lemma {:induction false} SessionMeans(p: Program, b: nat, c: nat, st: VM, es: seq<Value>, vs: seq<Value>)
    requires WfProgram(p) && Bounded(p, b) && Idle(p, st) && |es| == |vs|
    requires forall i | 0 <= i < |es| :: Whole(p, b, c, es[i])
    ensures Session(c, st, es, vs) <==> forall i | 0 <= i < |es| :: MeansValue(p, c, es[i], vs[i])
    decreases |es|
  {
    hide After, Whole, WfProgram, Bounded, Idle;
    if es != [] {
      var start := Evaluate(st, c, es[0]);
      EvaluationMeans(p, b, c, st, es[0]);
      assert Returns(start, vs[0]) <==> MeansValue(p, c, es[0], vs[0]);
      forall n: nat | After(start, n).status == Done(vs[0])
        ensures SessionGoesOn(c, st, es, vs, n) <==> forall i | 1 <= i < |es| :: MeansValue(p, c, es[i], vs[i])
      {
        IdleAgain(p, b, c, st, es[0], n);
        SessionMeans(p, b, c, After(start, n), es[1..], vs[1..]);
        assert forall i | 1 <= i < |es| :: es[1..][i - 1] == es[i] && vs[1..][i - 1] == vs[i];
      }
    }
  }

  /** So a file runs alike on any two machines of the program, whichever closures they have compiled. */
  lemma SessionTransparency(p: Program, b: nat, c: nat, st: VM, other: VM, es: seq<Value>, vs: seq<Value>)
    requires WfProgram(p) && Bounded(p, b) && Idle(p, st) && Idle(p, other) && |es| == |vs|
    requires forall i | 0 <= i < |es| :: Whole(p, b, c, es[i])
    ensures Session(c, st, es, vs) <==> Session(c, other, es, vs)
  {
    SessionMeans(p, b, c, st, es, vs);
    SessionMeans(p, b, c, other, es, vs);
  }
}
