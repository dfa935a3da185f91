/** Threaded code computes the meaning of the closure it was compiled from. */
module CompiledProof {
  import opened Values
  import opened EnvStore
  import opened Compiler
  import opened Machine
  import opened Semantics
  import opened WellFormed
  import opened ScopeProof
  import opened FrameDiscipline
  import opened Activations
  import opened Peaks
  import opened InterpreterProof
  import opened CodeLayout
  import opened Layout

  /** The code and the scope table of a compiled closure: locals at their slots, other symbols at
      closure slots that hold the nodes the environment search finds. */
  ghost predicate Target(p: Program, id: nat, all: set<Value>, t: Table, code: seq<Instr>, closed: seq<NodeRef>) {
    && id < |p.clos| && !p.clos[id].compiled
    && CompileClosure(Globals(p, id), p.clos[id].args, p.clos[id].definition) == Code(code, closed)
    && (forall v | v in t :: v in all <==> !t[v].Captured?)
    && forall v | v in t && t[v].Captured? ::
         v in Globals(p, id) && t[v].location < |closed| && closed[t[v].location] == Globals(p, id)[v].node
  }

  /** Each bound local is in the slot the table gives it. */
  ghost predicate LocalsAt(t: Table, locals: map<Value, Value>, slots: seq<Value>) {
    forall v | v in locals ::
      v in t && !t[v].Captured? && t[v].location < |slots| && slots[t[v].location] == locals[v]
  }

  /** The running activation executes the closure's code with these locals bound. */
  ghost predicate Executing(j: Job, locals: map<Value, Value>, st: VM) {
    && st.status.Running? && st.mode == Mode.Compiled && st.closure == j.id && j.id < |st.clos|
    && Conforms(j.p, st)
    && st.clos[j.id].compiled && st.clos[j.id].code == j.code
    && Target(j.p, j.id, j.all, j.t, j.code, st.clos[j.id].closed)
    && |st.stack| == Base(st.frames) + st.argnum
    && LocalsAt(j.t, locals, st.stack[Base(st.frames)..])
  }

  /** What holds throughout the proof of a closure. */
  ghost predicate JobSetting(j: Job, locals: map<Value, Value>, fuel: nat) {
    && j.id < |j.p.clos| && WfProgram(j.p) && Bounded(j.p, j.b)
    && locals.Keys <= j.all && NoFormNames(j.G(), j.all) && LocalsPlain(j.p, locals)
    && (fuel > 0 ==> ApplyClaim(j.p, j.b, fuel - 1))
  }

  /** Compiled closures stay compiled, with the same code. */
  lemma ExecutingGoesOn(
    j: Job, locals: map<Value, Value>, st: VM, vs: seq<Value>, post: VM)
    requires Executing(j, locals, st) && Advanced(st, vs, post) && KeepsTables(j.p, st.envs, st.clos, post)
    ensures Executing(j, locals, post)
  {
    assert ClosureConforms(j.p, j.id, post.clos[j.id]);
    assert post.stack[Base(st.frames)..] == st.stack[Base(st.frames)..] + vs;
  }

  lemma AtomStep(j: Job, locals: map<Value, Value>, e: Value, tail: bool, st: VM, fuel: nat)
    requires JobSetting(j, locals, fuel) && Executing(j, locals, st) && st.argnum <= j.b
    requires !e.Pair? && j.ElemAt(locals.Keys, e, tail, st.argnum, st.ip)
    ensures j.Eval(locals, e, fuel).Val? && j.ElemEnd(e, tail, st.argnum, st.ip) == st.ip + 1
    ensures Step(st) ==
      st.(stack := st.stack + [j.Eval(locals, e, fuel).value], argnum := st.argnum + 1, ip := st.ip + 1)
  {
    hide Bounded, CompileClosure, ApplyClaim, WfProgram, Step;
    var p, g := j.p, j.G();
    var instr := CompAtom(g, j.t, e);
    AtFirst(j.code, st.ip, [instr]);
    assert AtInstr(st, instr);
    if e.Sym? && e in locals {
      var slot := j.t[e].location;
      assert st.stack[Base(st.frames)..][slot] == st.stack[Base(st.frames) + slot];
      StepStackRef(st, slot);
    } else if e.Sym? {
      var node := g[e].node;
      FlattenIsFind(p.envs, p.clos[j.id].env, e);
      assert st.envs[node.env] == p.envs[node.env];
      StepClosureRef(st, j.t[e].location, node);
    } else {
      StepConst(st, e);
    }
  }

  lemma AtomSim(j: Job, locals: map<Value, Value>, e: Value, tail: bool, st: VM, fuel: nat)
    returns (post: VM)
    requires JobSetting(j, locals, fuel) && Executing(j, locals, st) && st.argnum <= j.b
    requires !e.Pair? && j.ElemAt(locals.Keys, e, tail, st.argnum, st.ip)
    ensures GoesOn(j.p, j.b, st, One(j.Eval(locals, e, fuel)), fuel, 1, post)
    ensures j.Eval(locals, e, fuel).Val? && post.ip == j.ElemEnd(e, tail, st.argnum, st.ip)
  {
    AtomStep(j, locals, e, tail, st, fuel);
    hide Step, Bounded, CompileClosure, ApplyClaim, WfProgram, EvalExpr, CompElem;
    var v := j.Eval(locals, e, fuel).value;
    post := st.(stack := st.stack + [v], argnum := st.argnum + 1, ip := st.ip + 1);
    OneStep(j.b, st, |st.frames|, post);
    SameTables(j.p, st, post);
  }

  /** Test evaluated: continue with the arm it chooses, from the same depth. */
  lemma TakeArm(
    j: Job, locals: map<Value, Value>, st: VM, e: Value, tail: bool, v: Value, m: nat, tested: VM, fuel: nat)
    returns (mid: VM)
    requires JobSetting(j, locals, fuel) && Executing(j, locals, st)
    requires IsStatement(j.G(), e, If) && j.ElemAt(locals.Keys, e, tail, st.argnum, st.ip) && IfShape(e)
    requires GoesOn(j.p, j.b, st, Val([v]), fuel, m, tested) && st.argnum < j.b
    requires tested.ip == IfTestEnd(j, e, st.argnum, st.ip)
    ensures GoesOn(j.p, j.b, st, Val([]), fuel, m + 1, mid) && Executing(j, locals, mid)
    ensures mid.ip == if v == Bool(false) then IfSecond(j, e, tail, st.argnum, st.ip) else tested.ip + 1
  {
    hide Step, Conforms, WfProgram, ApplyClaim, CompElem, PeakElem, WfExpr, ElemCovered;
    var second := IfSecond(j, e, tail, st.argnum, st.ip);
    IfLayout(j, locals.Keys, e, tail, st.argnum, st.ip);
    ExecutingGoesOn(j, locals, st, [v], tested);
    StepJumpIfFalse(tested, second, st, v);
    mid := tested.(stack := st.stack, argnum := st.argnum, ip := if v == Bool(false) then second else tested.ip + 1);
    OneStep(j.b, tested, |st.frames|, mid);
    RunsThen(j.b, st, m, |st.frames|, tested, 1, mid);
    SameTables(j.p, tested, mid);
    assert st.stack + [] == st.stack;
    ExecutingGoesOn(j, locals, st, [], mid);
  }

  // ---------- operands and calls ----------

  /** The operands are on top of `st`'s slots: apply them in a frame of their own. */
  lemma CallOperands(j: Job, locals: map<Value, Value>, st: VM, values: seq<Value>, m: nat, mid: VM, fuel: nat)
    returns (n: nat, post: VM)
    requires JobSetting(j, locals, fuel) && Executing(j, locals, st)
    requires GoesOn(j.p, j.b, st, Val(values), fuel, m, mid) && 0 < |values| && st.argnum + |values| <= j.b
    requires mid.ip < |j.code| && j.code[mid.ip] == DoCall(st.argnum)
    ensures var out := if fuel == 0 then Timeout else Apply(j.p, values[0], values[1..], fuel - 1);
      GoesOn(j.p, j.b, st, One(out), fuel, n, post) && (out.Val? ==> post.ip == mid.ip + 1)
  {
    hide Step, CallApply, Apply, ApplyClaim, Conforms, WfProgram;
    ExecutingGoesOn(j, locals, st, values, mid);
    if fuel == 0 {
      n, post := m, mid;
    } else {
      var frame := Frame(mid.closure, |st.stack|, st.argnum, SavedIp(mid.ip + 1));
      var callee := mid.(frames := mid.frames + [frame], argnum := |values|);
      assert ApplyReady(j.p, j.b, callee, values[0], values[1..]) by {
        hide Runs;
        assert mid.stack[|st.stack|..] == values;
        SameTables(j.p, mid, callee);
      }
      var out := Apply(j.p, values[0], values[1..], fuel - 1);
      var k;
      k, post := UseApplyClaim(j.p, j.b, callee, values[0], values[1..], fuel - 1);
      var applied := CallApply(callee);
      ApplyKeepsBelow(callee);
      StepDoCall(mid, st.argnum);
      OneStep(j.b, mid, |st.frames|, applied);
      RunsThen(j.b, st, m, |st.frames|, mid, 1, applied);
      assert applied.stack[..|st.stack|] == st.stack by {
        hide Runs;
        assert callee.stack[..|st.stack|] == st.stack;
      }
      StayCompiledTwice(st.clos, mid.clos, applied.clos);
      CalleeEnds(j.p, j.b, st, m + 1, mid.envs, applied, out, fuel - 1, k, post, frame, fuel);
      n := m + 1 + k;
    }
  }

  lemma StayCompiledTwice(a: seq<Clos>, b: seq<Clos>, c: seq<Clos>)
    requires StayCompiled(a, b) && StayCompiled(b, c)
    ensures StayCompiled(a, c)
  {
  }

  /** The same from tail position: the operands move down, and the callee ends for the caller. */
  lemma TailCallOperands(j: Job, locals: map<Value, Value>, st: VM, values: seq<Value>, m: nat, mid: VM, fuel: nat)
    returns (n: nat, post: VM)
    requires JobSetting(j, locals, fuel) && Executing(j, locals, st)
    requires GoesOn(j.p, j.b, st, Val(values), fuel, m, mid) && 0 < |values| && st.argnum + |values| <= j.b
    requires mid.ip < |j.code| && j.code[mid.ip] == DoTailCall(st.argnum)
    ensures var out := if fuel == 0 then Timeout else Apply(j.p, values[0], values[1..], fuel - 1);
      Ends(j.p, j.b, st.envs, st, out, fuel, n, post)
  {
    hide Step, CallApply, Apply, ApplyClaim, Conforms, WfProgram;
    ExecutingGoesOn(j, locals, st, values, mid);
    if fuel == 0 {
      n, post := m, mid;
    } else {
      var base := Base(st.frames);
      var callee := mid.(stack := mid.stack[..base] + mid.stack[|st.stack|..], argnum := |values|, ip := 0);
      assert mid.stack[|st.stack|..] == values by { hide Runs; }
      assert callee.stack[..base] == st.stack[..base] by { hide Runs; }
      assert ApplyReady(j.p, j.b, callee, values[0], values[1..]) by {
        hide Runs;
        assert callee.stack[base..] == values;
        SameTables(j.p, mid, callee);
      }
      var out := Apply(j.p, values[0], values[1..], fuel - 1);
      var k;
      k, post := UseApplyClaim(j.p, j.b, callee, values[0], values[1..], fuel - 1);
      var applied := CallApply(callee);
      ApplyKeepsBelow(callee);
      StepDoTailCall(mid, st.argnum);
      OneStep(j.b, mid, |st.frames|, applied);
      RunsThen(j.b, st, m, |st.frames|, mid, 1, applied);
      StayCompiledTwice(st.clos, mid.clos, applied.clos);
      EndsLater(j.p, j.b, st.envs, st, m + 1, mid.envs, applied, out, fuel - 1, k, post, fuel);
      n := m + 1 + k;
    }
  }

  // ---------- expressions outside tail position ----------

  lemma {:induction false} ElemSim(j: Job, locals: map<Value, Value>, e: Value, st: VM, fuel: nat)
    returns (n: nat, post: VM)
    requires JobSetting(j, locals, fuel) && Executing(j, locals, st) && st.argnum < j.b
    requires j.ElemAt(locals.Keys, e, false, st.argnum, st.ip)
    ensures GoesOn(j.p, j.b, st, One(j.Eval(locals, e, fuel)), fuel, n, post)
    ensures j.Eval(locals, e, fuel).Val? ==> post.ip == j.ElemEnd(e, false, st.argnum, st.ip)
    decreases e, 1
  {
    hide Step, Conforms, WfProgram, Runs, ApplyClaim, CompElem, CompList, PeakElem, ElemCovered, At, Advanced;
    var d := st.argnum;
    if !e.Pair? {
      n := 1;
      post := AtomSim(j, locals, e, false, st, fuel);
    } else if IsStatement(j.G(), e, If) {
      n, post := IfSim(j, locals, e, st, fuel);
    } else if IsStatement(j.G(), e, Begin) {
      BeginLayout(j, locals.Keys, e, d, st.ip);
      assert j.Eval(locals, e, fuel) == EvalSequence(j.p, j.G(), locals, e.cdr, fuel)
          == j.Eval(locals, e.cdr.car, fuel);
      n, post := ElemSim(j, locals, e.cdr.car, st, fuel);
    } else {
      CallLayout(j, locals.Keys, e, false, d, st.ip);
      EvalListLength(j.p, j.G(), locals, e, fuel);
      var m, mid := ListSim(j, locals, e, st, fuel);
      match EvalList(j.p, j.G(), locals, e, fuel)
      case Val(values) => n, post := CallOperands(j, locals, st, values, m, mid, fuel);
      case Error => n, post := m, mid;
      case Timeout => n, post := m, mid;
      case Unclaimed => n, post := 0, st;
    }
  }

  lemma {:induction false} IfSim(j: Job, locals: map<Value, Value>, e: Value, st: VM, fuel: nat)
    returns (n: nat, post: VM)
    requires JobSetting(j, locals, fuel) && Executing(j, locals, st) && st.argnum < j.b
    requires IsStatement(j.G(), e, If) && j.ElemAt(locals.Keys, e, false, st.argnum, st.ip)
    ensures GoesOn(j.p, j.b, st, One(j.Eval(locals, e, fuel)), fuel, n, post)
    ensures j.Eval(locals, e, fuel).Val? ==> post.ip == j.ElemEnd(e, false, st.argnum, st.ip)
    decreases e, 0
  {
    hide Step, Conforms, WfProgram, Runs, ApplyClaim, CompElem, CompList, PeakElem, ElemCovered, At, WfExpr, Advanced,
      Returned, Target, LocalsAt;
    var d := st.argnum;
    var end := j.ElemEnd(e, false, d, st.ip);
    IfLayout(j, locals.Keys, e, false, d, st.ip);
    var m, tested := ElemSim(j, locals, e.cdr.car, st, fuel);
    n, post := m, tested;
    var test := j.Eval(locals, e.cdr.car, fuel);
    if test.Val? {
      var mid := TakeArm(j, locals, st, e, false, test.value, m, tested, fuel);
      SameDepth(st, mid);
      var k, armed;
      if test.value == Bool(false) {
        k, armed := ElemSim(j, locals, e.cdr.cdr.cdr.car, mid, fuel);
      } else {
        k, armed := ElemSim(j, locals, e.cdr.cdr.car, mid, fuel);
        if j.Eval(locals, e.cdr.cdr.car, fuel).Val? {
          var v := j.Eval(locals, e.cdr.cdr.car, fuel).value;
          k, armed := SkipElse(j, locals, mid, v, fuel, k, armed, end);
        }
      }
      var out := One(j.Eval(locals, e, fuel));
      GoesOnThen(j.p, j.b, st, [], m + 1, mid, out, fuel, k, armed);
      assert out.Val? ==> [] + out.value == out.value;
      n, post := m + 1 + k, armed;
    }
  }

  lemma SameDepth(st: VM, mid: VM)
    requires Advanced(st, [], mid)
    ensures mid.argnum == st.argnum
  {
  }

  /** The jump at the end of the first arm. */
  lemma SkipElse(
    j: Job, locals: map<Value, Value>, st: VM, v: Value, fuel: nat, m: nat, mid: VM, end: nat)
    returns (n: nat, post: VM)
    requires Executing(j, locals, st) && GoesOn(j.p, j.b, st, Val([v]), fuel, m, mid) && st.argnum < j.b
    requires mid.ip < |j.code| && j.code[mid.ip] == Jump(end)
    ensures GoesOn(j.p, j.b, st, Val([v]), fuel, n, post) && post.ip == end
  {
    hide Runs, Target, LocalsAt;
    hide Step, Conforms, WfProgram, ApplyClaim;
    ExecutingGoesOn(j, locals, st, [v], mid);
    StepJump(mid, end);
    post := mid.(ip := end);
    OneStep(j.b, mid, |st.frames|, post);
    RunsThen(j.b, st, m, |st.frames|, mid, 1, post);
    SameTables(j.p, mid, post);
    n := m + 1;
  }

  lemma {:induction false} ListSim(j: Job, locals: map<Value, Value>, list: Value, st: VM, fuel: nat)
    returns (n: nat, post: VM)
    requires JobSetting(j, locals, fuel) && Executing(j, locals, st)
    requires j.ListAt(locals.Keys, list, st.argnum, st.ip)
    ensures GoesOn(j.p, j.b, st, EvalList(j.p, j.G(), locals, list, fuel), fuel, n, post)
    ensures EvalList(j.p, j.G(), locals, list, fuel).Val? ==>
              post.ip == j.ListEnd(list, false, st.argnum, st.ip)
    decreases list, 0
  {
    hide Step, Conforms, WfProgram, Runs, ApplyClaim, CompElem, PeakElem, ElemCovered, At, WfExpr;
    if !list.Pair? {
      n, post := 0, st;
      NoSteps(j.b, st, |st.frames|);
      assert st.stack + [] == st.stack;
    } else {
      ListLayout(j, locals.Keys, list, st.argnum, st.ip);
      hide CompList;
      var m, mid := ElemSim(j, locals, list.car, st, fuel);
      match j.Eval(locals, list.car, fuel)
      case Val(v) =>
        ExecutingGoesOn(j, locals, st, [v], mid);
        var k;
        k, post := ListSim(j, locals, list.cdr, mid, fuel);
        GoesOnThen(j.p, j.b, st, [v], m, mid, EvalList(j.p, j.G(), locals, list.cdr, fuel), fuel, k, post);
        n := m + k;
      case Error => n, post := m, mid;
      case Timeout => n, post := m, mid;
      case Unclaimed => n, post := 0, st;
    }
  }

  // ---------- tail position ----------

  /** A value in tail position is the activation's result, however many slots lie below it. */
  lemma {:induction false} FinishReturn(j: Job, locals: map<Value, Value>, st: VM, v: Value)
    returns (n: nat, post: VM)
    requires Executing(j, locals, st) && 0 < st.argnum <= j.b && Plain(j.p, v)
    requires st.stack[|st.stack| - 1] == v && ReachesReturn(j.code, st.ip)
    ensures Ends(j.p, j.b, st.envs, st, Val(v), 0, n, post)
    decreases |j.code| - st.ip
  {
    hide Step, Target, Conforms;
    match j.code[st.ip]
    case ReturnLast =>
      StepReturnLast(st, v);
      n, post := 1, Step(st);
      OneStep(j.b, st, |st.frames|, post);
      SameTables(j.p, st, post);
    case Jump(target) =>
      StepJump(st, target);
      var mid := st.(ip := target);
      SameTables(j.p, st, mid);
      var k;
      k, post := FinishReturn(j, locals, mid, v);
      OneStep(j.b, st, |st.frames|, mid);
      EndsLater(j.p, j.b, st.envs, st, 1, st.envs, mid, Val(v), 0, k, post, 0);
      n := 1 + k;
  }

  lemma {:induction false} TailElemSim(j: Job, locals: map<Value, Value>, e: Value, st: VM, fuel: nat)
    returns (n: nat, post: VM)
    requires JobSetting(j, locals, fuel) && Executing(j, locals, st) && st.argnum < j.b
    requires j.ElemAt(locals.Keys, e, true, st.argnum, st.ip)
    requires ReachesReturn(j.code, j.ElemEnd(e, true, st.argnum, st.ip))
    ensures Ends(j.p, j.b, st.envs, st, j.Eval(locals, e, fuel), fuel, n, post)
    decreases e, 1
  {
    hide Step, Conforms, WfProgram, Runs, ApplyClaim, CompElem, CompList, PeakElem, ElemCovered, At, Returned,
      ReachesReturn;
    var d := st.argnum;
    if !e.Pair? {
      n, post := TailAtomSim(j, locals, e, st, fuel);
    } else if IsStatement(j.G(), e, If) {
      n, post := TailIfSim(j, locals, e, st, fuel);
    } else if IsStatement(j.G(), e, Begin) {
      TailBeginLayout(j, locals.Keys, e, d, st.ip);
      assert j.Eval(locals, e, fuel) == EvalSequence(j.p, j.G(), locals, e.cdr, fuel);
      n, post := TailSequenceSim(j, locals, e.cdr, st, fuel);
    } else {
      CallLayout(j, locals.Keys, e, true, d, st.ip);
      EvalListLength(j.p, j.G(), locals, e, fuel);
      var m, mid := ListSim(j, locals, e, st, fuel);
      match EvalList(j.p, j.G(), locals, e, fuel)
      case Val(values) => n, post := TailCallOperands(j, locals, st, values, m, mid, fuel);
      case Error => n, post := m, mid;
      case Timeout => n, post := m, mid;
      case Unclaimed => n, post := 0, st;
    }
  }

  lemma TailAtomSim(j: Job, locals: map<Value, Value>, e: Value, st: VM, fuel: nat) returns (n: nat, post: VM)
    requires JobSetting(j, locals, fuel) && Executing(j, locals, st) && st.argnum < j.b && !e.Pair?
    requires j.ElemAt(locals.Keys, e, true, st.argnum, st.ip)
    requires ReachesReturn(j.code, j.ElemEnd(e, true, st.argnum, st.ip))
    ensures Ends(j.p, j.b, st.envs, st, j.Eval(locals, e, fuel), fuel, n, post)
  {
    hide Step, Conforms, WfProgram, Runs, ApplyClaim, CompElem, PeakElem, ElemCovered, At, ReachesReturn, Target;
    var mid := AtomSim(j, locals, e, true, st, fuel);
    var v := j.Eval(locals, e, fuel).value;
    ExecutingGoesOn(j, locals, st, [v], mid);
    assert Plain(j.p, [v][0]);
    var k;
    k, post := FinishReturn(j, locals, mid, v);
    assert mid.stack[..Base(st.frames)] == st.stack[..Base(st.frames)];
    EndsLater(j.p, j.b, st.envs, st, 1, mid.envs, mid, Val(v), 0, k, post, 0);
    n := 1 + k;
  }

  lemma {:induction false} TailIfSim(j: Job, locals: map<Value, Value>, e: Value, st: VM, fuel: nat)
    returns (n: nat, post: VM)
    requires JobSetting(j, locals, fuel) && Executing(j, locals, st) && st.argnum < j.b
    requires IsStatement(j.G(), e, If) && j.ElemAt(locals.Keys, e, true, st.argnum, st.ip)
    requires ReachesReturn(j.code, j.ElemEnd(e, true, st.argnum, st.ip))
    ensures Ends(j.p, j.b, st.envs, st, j.Eval(locals, e, fuel), fuel, n, post)
    decreases e, 0
  {
    hide Step, Conforms, WfProgram, Runs, ApplyClaim, CompElem, CompList, PeakElem, ElemCovered, At, WfExpr,
      Returned, Target, LocalsAt;
    var d := st.argnum;
    IfLayout(j, locals.Keys, e, true, d, st.ip);
    var m, tested := ElemSim(j, locals, e.cdr.car, st, fuel);
    n, post := m, tested;
    var test := j.Eval(locals, e.cdr.car, fuel);
    if test.Val? {
      var mid := TakeArm(j, locals, st, e, true, test.value, m, tested, fuel);
      SameDepth(st, mid);
      var arm := if test.value == Bool(false) then e.cdr.cdr.cdr.car else e.cdr.cdr.car;
      var k;
      k, post := TailElemSim(j, locals, arm, mid, fuel);
      assert mid.stack[..Base(st.frames)] == st.stack[..Base(st.frames)];
      EndsLater(j.p, j.b, st.envs, st, m + 1, mid.envs, mid, j.Eval(locals, arm, fuel), fuel, k, post, fuel);
      n := m + 1 + k;
    }
  }

  lemma {:induction false} TailSequenceSim(j: Job, locals: map<Value, Value>, list: Value, st: VM, fuel: nat)
    returns (n: nat, post: VM)
    requires JobSetting(j, locals, fuel) && Executing(j, locals, st)
    requires j.SequenceAt(locals.Keys, list, st.argnum, st.ip)
    requires ReachesReturn(j.code, j.ListEnd(list, true, st.argnum, st.ip))
    ensures Ends(j.p, j.b, st.envs, st, EvalSequence(j.p, j.G(), locals, list, fuel), fuel, n, post)
    decreases list, 0
  {
    hide Step, Conforms, WfProgram, Runs, ApplyClaim, CompElem, CompList, PeakElem, ElemCovered, At, WfExpr,
      WfSequence, ReachesReturn, Returned, Target, LocalsAt, EvalExpr;
    SequenceLayout(j, locals.Keys, list, st.argnum, st.ip);
    if list.cdr == Null {
      n, post := TailElemSim(j, locals, list.car, st, fuel);
    } else {
      var m, mid := ElemSim(j, locals, list.car, st, fuel);
      n, post := m, mid;
      var first := j.Eval(locals, list.car, fuel);
      if first.Val? {
        ExecutingGoesOn(j, locals, st, [first.value], mid);
        var k;
        k, post := TailSequenceSim(j, locals, list.cdr, mid, fuel);
        assert mid.stack[..Base(st.frames)] == st.stack[..Base(st.frames)];
        EndsLater(j.p, j.b, st.envs, st, m, mid.envs, mid,
                  EvalSequence(j.p, j.G(), locals, list.cdr, fuel), fuel, k, post, fuel);
        n := m + k;
      }
    }
  }

  // ---------- bodies ----------

  /** An evaluated initialiser is its local's slot. */
  lemma DefineLocal(
    j: Job, locals: map<Value, Value>, st: VM, name: Value, v: Value, mid: VM, fuel: nat)
    requires JobSetting(j, locals, fuel) && Executing(j, locals, st) && Executing(j, locals, mid)
    requires Advanced(st, [v], mid)
    requires name in j.t && j.t[name] == Local(st.argnum) && Plain(j.p, v)
    ensures JobSetting(j, locals[name := v], fuel) && Executing(j, locals[name := v], mid)
    ensures locals[name := v].Keys == locals.Keys + {name}
  {
    hide WfProgram, Bounded, Conforms, CompileClosure, ApplyClaim;
    assert mid.stack[Base(st.frames)..][st.argnum] == v;
  }

  lemma {:induction false} BodySim(j: Job, locals: map<Value, Value>, body: Value, st: VM, fuel: nat)
    returns (n: nat, post: VM)
    requires JobSetting(j, locals, fuel) && Executing(j, locals, st)
    requires BodyAt(j, locals.Keys, body, st.argnum, st.ip)
    requires ReachesReturn(j.code, j.ListEnd(body, true, st.argnum, st.ip))
    ensures Ends(j.p, j.b, st.envs, st, EvalBody(j.p, j.G(), locals, body, fuel), fuel, n, post)
    decreases body
  {
    hide Step, Conforms, WfProgram, Runs, ApplyClaim, CompElem, CompList, PeakElem, ElemCovered, At, WfExpr,
      WfSequence, ReachesReturn, Returned, Target, LocalsAt, EvalExpr;
    if body.Pair? && IsStatement(j.G(), body.car, Define) {
      var name, init := body.car.cdr.car, body.car.cdr.cdr.car;
      BodyLayout(j, locals.Keys, body, st.argnum, st.ip);
      hide PeakList, WfBody, BodyCovered;
      var m, mid := ElemSim(j, locals, init, st, fuel);
      n, post := m, mid;
      var first := j.Eval(locals, init, fuel);
      if first.Val? {
        ExecutingGoesOn(j, locals, st, [first.value], mid);
        assert Plain(j.p, [first.value][0]);
        DefineLocal(j, locals, st, name, first.value, mid, fuel);
        var k;
        k, post := BodySim(j, locals[name := first.value], body.cdr, mid, fuel);
        assert mid.stack[..Base(st.frames)] == st.stack[..Base(st.frames)];
        var out := EvalBody(j.p, j.G(), locals, body, fuel);
        EndsLater(j.p, j.b, st.envs, st, m, mid.envs, mid, out, fuel, k, post, fuel);
        n := m + k;
      }
    } else {
      n, post := TailSequenceSim(j, locals, body, st, fuel);
    }
  }

  // ---------- parameters and locals at their slots ----------

  /** Parameter i is bound to argument i, and the table puts it at slot i. */
  lemma {:induction false} ParamsAt(
    t: Table, vars: map<Value, Value>, params: Value, args: seq<Value>, slots: seq<Value>, loc: nat)
    requires |args| == ListLength(params) && LocalsAt(t, vars, slots)
    requires loc + |args| == |slots| && slots[loc..] == args
    ensures LocalsAt(AddParams(t, params, loc), BindArgs(vars, params, args), slots)
    decreases params
  {
    if params.Pair? {
      assert slots[loc] == slots[loc..][0];
      assert slots[loc + 1..] == slots[loc..][1..];
      ParamsAt(t[params.car := Parameter(loc)], vars[params.car := args[0]], params.cdr, args[1..], slots, loc + 1);
    }
  }

  // ---------- applying a compiled closure ----------

  lemma TargetOf(p: Program, b: nat, id: nat, closed: seq<NodeRef>, code: seq<Instr>)
    requires id < |p.clos| && !p.clos[id].compiled && WfClosure(p, id)
    requires CompileClosure(Globals(p, id), p.clos[id].args, p.clos[id].definition) == Code(code, closed)
    ensures var j := JobOf(p, b, id); j.code == code && Target(p, id, j.all, j.t, code, closed)
  {
    GenTopScopeCorrect(p, id);
    var c, g := p.clos[id], Globals(p, id);
    var s := GenTopScope(g, c.args, c.definition).value;
    forall v | v in s.table && s.table[v].Captured?
      ensures v in g && s.table[v].location < |closed| && closed[s.table[v].location] == g[v].node
    {
      assert s.closed[s.table[v].location] == ClosedVar(v, g[v].node);
    }
  }

  lemma LocalsStart(p: Program, b: nat, id: nat, args: seq<Value>, f: Value)
    requires id < |p.clos| && WfClosure(p, id) && |args| == ListLength(p.clos[id].args)
    ensures var j, c := JobOf(p, b, id), p.clos[id];
      var locals := BindArgs(map[], c.args, args);
      locals.Keys == ParamSet(c.args) && LocalsAt(j.t, locals, [f] + args)
  {
    hide CompList;
    GenTopScopeCorrect(p, id);
    var j, c, g := JobOf(p, b, id), p.clos[id], Globals(p, id);
    var locals := BindArgs(map[], c.args, args);
    var params := AddParams(map[], c.args, 1);
    var start := Scope(StackSlots(g, c.args, c.definition), []);
    BindArgsKeys(map[], c.args, args);
    assert locals.Keys == ParamSet(c.args);
    ParamsAt(map[], map[], c.args, args, [f] + args, 1);
    DefinesAhead(p, g, j.all, ParamSet(c.args), params, c.definition, ListLength(c.args) + 1);
    forall v | v in locals ensures v in j.t && j.t[v] == params[v] {
      assert v in params;
      assert start.table[v] == params[v];
    }
  }

  lemma JobStarts(p: Program, b: nat, id: nat, args: seq<Value>, fuel: nat)
    requires WfProgram(p) && Bounded(p, b) && (fuel > 0 ==> ApplyClaim(p, b, fuel - 1))
    requires id < |p.clos| && WfClosure(p, id) && |args| == ListLength(p.clos[id].args) && AllPlain(p, args)
    ensures JobSetting(JobOf(p, b, id), BindArgs(map[], p.clos[id].args, args), fuel)
  {
    hide ApplyClaim, CompList, Bounded, WfProgram, WfBody, Plain;
    BindArgsPlain(p, map[], p.clos[id].args, args);
    BindArgsKeys(map[], p.clos[id].args, args);
  }

  /** Entering a compiled closure with matching arguments: its code is about to run, with the parameters bound. */
  lemma CompiledEntry(p: Program, b: nat, st: VM, id: nat, args: seq<Value>)
    requires Bounded(p, b) && id < |p.clos| && WfClosure(p, id) && |args| == ListLength(p.clos[id].args)
    requires ApplyReady(p, b, st, Closure(id), args) && !p.clos[id].compiled && st.clos[id].compiled
    ensures var j, locals := JobOf(p, b, id), BindArgs(map[], p.clos[id].args, args);
      && CallApply(st) == st.(closure := id, mode := Mode.Compiled, ip := 0)
      && Executing(j, locals, CallApply(st))
      && BodyAt(j, locals.Keys, p.clos[id].definition, 1 + |args|, 0)
      && ReachesReturn(j.code, j.ListEnd(p.clos[id].definition, true, 1 + |args|, 0))
  {
    hide CompList, BodyAt, ReachesReturn, LocalsAt, Bounded, WfClosure, Target, Plain, JobOf;
    assert ClosureConforms(p, id, st.clos[id]);
    TargetOf(p, b, id, st.clos[id].closed, st.clos[id].code);
    BoundedBody(p, b, id);
    BodyStarts(p, b, id);
    LocalsStart(p, b, id, args, Closure(id));
    JobFields(p, b, id);
    var st1 := st.(closure := id, mode := Mode.Compiled, ip := 0);
    SameTables(p, st, st1);
    assert st1.stack[Base(st.frames)..] == [Closure(id)] + args;
  }

  /** A compiled application runs as it means. */
  lemma CompiledApply(p: Program, b: nat, st: VM, id: nat, args: seq<Value>, fuel: nat)
    requires WfProgram(p) && Bounded(p, b) && (fuel > 0 ==> ApplyClaim(p, b, fuel - 1))
    requires ApplyReady(p, b, st, Closure(id), args) && !p.clos[id].compiled && st.clos[id].compiled
    ensures ApplyEnds(p, b, st, Closure(id), args, fuel)
  {
    hide ApplyClaim, Step, CompList, CompElem, Bounded, BodyAt, ReachesReturn, CallApply, JobSetting, Executing;
    var c := p.clos[id];
    if |args| != ListLength(c.args) {
      UnclaimedEnds(p, b, st, Closure(id), args, fuel);
    } else {
      assert WfClosure(p, id);
      var j, locals := JobOf(p, b, id), BindArgs(map[], c.args, args);
      JobStarts(p, b, id, args, fuel);
      CompiledEntry(p, b, st, id, args);
      JobFields(p, b, id);
      var n, post := BodySim(j, locals, c.definition, CallApply(st), fuel);
      assert Apply(p, Closure(id), args, fuel) == EvalBody(p, j.G(), locals, c.definition, fuel);
    }
  }
}
