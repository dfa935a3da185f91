/** The static depth is the dynamic depth, in every reachable state. */
module DepthProof {
  import opened Values
  import opened EnvStore
  import opened Compiler
  import opened CodeLayout
  import opened Machine
  import opened Semantics
  import opened WellFormed
  import opened FrameDiscipline
  import opened CodeShape
  import opened Activations
  import opened Peaks
  import opened InterpreterProof
  import opened ActivationBounds
  import opened Depths

  // ---------- code never changes ----------

  lemma ApplyKeepsCode(st: VM)
    ensures Later(st.clos, CallApply(st).clos)
  {
    hide CountCall;
  }

  lemma FormKeepsCode(st: VM, kind: RunType, expr: Value)
    ensures Later(st.clos, HandleSpecialForm(st, kind, expr).clos)
  {
  }

  lemma InterpretedKeepsCode(st: VM)
    ensures Later(st.clos, StepInterpreted(st).clos)
  {
    hide CallApply, HandleSpecialForm, Lookup;
    ApplyKeepsCode(st);
    match st.ptr
    case Pair(head, rest) =>
      if head.Sym? && Lookup(st.envs, st.env, head).Some? {
        var v := Lookup(st.envs, st.env, head).value;
        if IsSpecialForm(v) { FormKeepsCode(st.(ptr := rest), v.kind, rest); }
      }
    case _ =>
  }

  lemma ExecuteKeepsCode(st: VM, instr: Instr)
    ensures Later(st.clos, Execute(st, instr).clos)
  {
    hide CallApply, PrimOf, SetVar, SetVarRecurse;
    match instr
    case DoCall(arg) =>
      if arg <= st.argnum && st.argnum <= |st.stack| {
        var frame := Frame(st.closure, |st.stack| - st.argnum + arg, arg, SavedIp(st.ip + 1));
        ApplyKeepsCode(st.(frames := st.frames + [frame], argnum := st.argnum - arg));
      }
    case DoTailCall(arg) =>
      if arg <= st.argnum && st.argnum <= |st.stack| {
        var base := |st.stack| - st.argnum;
        ApplyKeepsCode(st.(stack := st.stack[..base] + st.stack[base + arg..], argnum := st.argnum - arg, ip := 0));
      }
    case _ =>
  }

  /** No step changes the code of a compiled closure. */
  lemma StepKeepsCode(st: VM)
    ensures Later(st.clos, Step(st).clos)
  {
    hide StepInterpreted, Execute;
    InterpretedKeepsCode(st);
    if st.closure < |st.clos| && st.ip < |st.clos[st.closure].code| {
      ExecuteKeepsCode(st, st.clos[st.closure].code[st.ip]);
    }
  }

  // ---------- one step ----------

  ghost predicate HoldsCode(st: VM, c: nat, code: seq<Instr>) {
    c < |st.clos| && st.clos[c].compiled && st.clos[c].code == code
  }

  /** The activation that has `d` frames below it executes `code`, at a depth the compiler had in mind, now or when
      its callee returns. */
  ghost predicate AtDepth(st: VM, d: nat, c: nat, code: seq<Instr>, depths: seq<nat>, b: nat)
    requires |depths| == |code|
  {
    && InActivation(st, d, c) && HoldsCode(st, c, code)
    && if |st.frames| == d then Meets(code, depths, st.ip, st.argnum) && st.argnum <= b
       else Meets(code, depths, st.frames[d].saved.ip, st.frames[d].argnum + 1) && st.frames[d].argnum + 1 <= b
  }

  /** Only jumps and the return are indifferent to the depth. */
  lemma DepthExact(code: seq<Instr>, depths: seq<nat>, at: nat, d: nat)
    requires |depths| == |code| && Meets(code, depths, at, d)
    ensures code[at].Jump? || code[at].ReturnLast? || depths[at] == d
  {
  }

  /** An instruction that neither calls nor leaves leads to an instruction that has the right depth. */
  lemma OwnDepth(st: VM, c: nat, code: seq<Instr>, depths: seq<nat>, b: nat)
    requires |depths| == |code| && Meets(code, depths, st.ip, st.argnum) && st.argnum <= b
    requires AtInstr(st, code[st.ip]) && st.closure == c && HoldsCode(st, c, code) && Flows(code, depths, b, st.ip)
    requires var instr := code[st.ip]; !instr.DoCall? && !instr.DoTailCall? && !instr.ReturnLast? && !instr.Return?
    requires Step(st).status.Running?
    ensures var next := Step(st);
      && next.frames == st.frames && next.closure == c && next.mode == st.mode
      && Meets(code, depths, next.ip, next.argnum) && next.argnum <= b
  {
    DepthExact(code, depths, st.ip, st.argnum);
  }

  lemma CallDepth(st: VM, c: nat, code: seq<Instr>, depths: seq<nat>, b: nat, arg: nat)
    requires Nested(st) && AtInstr(st, DoCall(arg)) && |depths| == |code| && st.closure == c && HoldsCode(st, c, code)
    requires code[st.ip] == DoCall(arg)
    requires Meets(code, depths, st.ip, st.argnum) && Flows(code, depths, b, st.ip)
    requires Step(st).status.Running?
    ensures var next := Step(st); var d := |st.frames|;
      && |next.frames| == d + 1 && next.frames[d] == Frame(c, Base(st.frames) + arg, arg, SavedIp(st.ip + 1))
      && Meets(code, depths, st.ip + 1, arg + 1) && arg + 1 <= b
  {
    hide CallApply;
    DepthExact(code, depths, st.ip, st.argnum);
    var frame := Frame(st.closure, |st.stack| - st.argnum + arg, arg, SavedIp(st.ip + 1));
    var called := st.(frames := st.frames + [frame], argnum := st.argnum - arg);
    StepDoCall(st, arg);
    ApplyKeepsBelow(called);
  }

  lemma DepthStep(st: VM, d: nat, c: nat, code: seq<Instr>, depths: seq<nat>, b: nat)
    requires Nested(st) && ControlInside(st) && Staying(st, 1, d)
    requires |depths| == |code| && FlowFrom(code, depths, b, 0, |code|) && AtDepth(st, d, c, code, depths, b)
    ensures AtDepth(Step(st), d, c, code, depths, b)
  {
    hide Step, Meets, Flows, StepCompiled;
    StepKeepsCode(st);
    var next := Step(st);
    if |st.frames| == d {
      MeetsInside(code, depths, st.ip, st.argnum);
      var instr := code[st.ip];
      assert AtInstr(st, instr);
      if instr.DoCall? {
        CallDepth(st, c, code, depths, b, instr.arg);
      } else {
        OwnDepth(st, c, code, depths, b);
      }
    } else {
      StepSeenFromBelow(st, d + 1);
      if |next.frames| > d { assert next.frames[d] == next.frames[..d + 1][d]; }
    }
  }

  lemma MeetsInside(code: seq<Instr>, depths: seq<nat>, at: nat, d: nat)
    requires |depths| == |code| && Meets(code, depths, at, d)
    ensures at < |code|
  {
  }

  // ---------- one activation ----------

  lemma {:induction false} ActivationDepth(
    st: VM, n: nat, d: nat, c: nat, code: seq<Instr>, depths: seq<nat>, b: nat)
    requires Nested(st) && ControlInside(st) && Staying(st, n, d)
    requires |depths| == |code| && FlowFrom(code, depths, b, 0, |code|) && AtDepth(st, d, c, code, depths, b)
    ensures Nested(After(st, n)) && ControlInside(After(st, n)) && AtDepth(After(st, n), d, c, code, depths, b)
    decreases n
  {
    hide Step, AtDepth, FlowFrom;
    if n > 0 {
      assert Staying(st, 1, d);
      DepthStep(st, d, c, code, depths, b);
      StepDiscipline(st);
      ControlStaysInside(st);
      ActivationDepth(Step(st), n - 1, d, c, code, depths, b);
    }
  }

  /** A compiled closure has just been entered, at the bottom of its code. */
  ghost predicate Entered(st: VM, c: nat) {
    st.status.Running? && st.mode == Mode.Compiled && st.closure == c < |st.clos| && st.clos[c].compiled && st.ip == 0
  }

  /** Static depth is dynamic depth. Take any well-formed closure, compiled, entered with as many arguments as it has
      parameters. In every state its activation reaches, whatever its callees have done, it holds exactly the number
      of slots that the compiler's `stack_ptr` was when it emitted the instruction; at a call that is the depth the
      instruction names and the operands of the call. Only jumps and the final return may be reached with another
      number, and they do not use it. */
  lemma StaticDepthIsDynamic(p: Program, id: nat, b: nat, st: VM, n: nat, closed: seq<NodeRef>)
    requires id < |p.clos| && WfClosure(p, id) && Nested(st) && ControlInside(st) && Entered(st, id)
    requires var c := p.clos[id];
      CompileClosure(Globals(p, id), c.args, c.definition) == Code(st.clos[id].code, closed)
    requires PeakList(Globals(p, id), p.clos[id].definition, ListLength(p.clos[id].args) + 1) <= b
    requires st.argnum == 1 + ListLength(p.clos[id].args)
    requires Staying(st, n, |st.frames|)
    ensures var c, g, code := p.clos[id], Globals(p, id), st.clos[id].code;
      var depths, operands := StaticDepths(g, c.args, c.definition), ListOperands(g, c.definition) + [0];
      var now := After(st, n);
      && |depths| == |operands| == |code|
      && (|now.frames| == |st.frames| ==>
            && now.closure == id && now.ip < |code| && now.argnum <= b
            && (code[now.ip].Jump? || code[now.ip].ReturnLast? || now.argnum == depths[now.ip])
            && CountsOperands(code[now.ip], now.argnum, operands[now.ip]))
  {
    hide Step, CompList, WfBody, PeakList, Flows, GenTopScope, ListDepths, ListOperands, Staying;
    var c, g, code := p.clos[id], Globals(p, id), st.clos[id].code;
    var depths := StaticDepths(g, c.args, c.definition);
    ClosureConsistent(p, id, b, code, closed);
    ClosureCounts(g, c.args, c.definition, code, closed);
    ActivationDepth(st, n, |st.frames|, id, code, depths, b);
    var now := After(st, n);
    if |now.frames| == |st.frames| { DepthExact(code, depths, now.ip, now.argnum); }
  }

  lemma ClosureCounts(g: Bindings, args: Value, body: Value, code: seq<Instr>, closed: seq<NodeRef>)
    requires CompileClosure(g, args, body) == Code(code, closed)
    ensures AllCount(code, StaticDepths(g, args, body), ListOperands(g, body) + [0])
  {
    hide CompList, ListDepths, ListOperands, AllCount, GenTopScope;
    var t, n := GenTopScope(g, args, body).value.table, ListLength(args) + 1;
    ListCounts(g, t, body, true, n, 0);
    OneCounts(ReturnLast, n + ListLength(body), 0);
    CountJoined(CompList(g, t, body, true, n, 0), ListDepths(g, body, n), ListOperands(g, body),
                [ReturnLast], [n + ListLength(body)], [0]);
  }

  // ---------- chains of tail calls ----------

  /** Code of a built-in: it pushes nothing and calls nothing. */
  predicate Quiet(code: seq<Instr>) {
    forall i | 0 <= i < |code| ::
      || code[i].Prim? || code[i].InternDefine? || code[i].InternSet? || code[i].InternIf?
      || code[i].Return? || code[i].ReturnLast?
  }

  /** An activation that fits: a built-in's, or one of code that keeps to its depths from the number of slots it
      has been entered with. */
  ghost predicate FitsIn(st: VM, b: nat) {
    && st.status.Running? && st.mode == Mode.Compiled && st.closure < |st.clos| && st.clos[st.closure].compiled
    && st.ip == 0 && 0 < st.argnum <= b
    && var code := st.clos[st.closure].code;
       Quiet(code) || exists depths :: Consistent(code, depths, st.argnum, b)
  }

  /** `n` steps with at least `d` frames, in which the activation that has `d` never returns, and each of its tail
      calls enters an activation that fits. */
  ghost predicate Chain(b: nat, st: VM, n: nat, d: nat)
    decreases n
  {
    && st.status.Running? && |st.frames| >= d
    && (n > 0 ==>
          && (|st.frames| == d && Leaves(st) ==>
                st.clos[st.closure].code[st.ip].DoTailCall? && |Step(st).frames| == d && FitsIn(Step(st), b))
          && Chain(b, Step(st), n - 1, d))
  }

  ghost predicate InBuiltin(st: VM, d: nat, b: nat) {
    && |st.frames| == d && st.mode == Mode.Compiled && st.closure < |st.clos| && st.clos[st.closure].compiled
    && Quiet(st.clos[st.closure].code) && st.argnum <= b
  }

  ghost predicate InDepth(st: VM, d: nat, b: nat) {
    exists c: nat, depths: seq<nat> :: InDepthOf(st, d, b, c, depths)
  }

  ghost predicate InDepthOf(st: VM, d: nat, b: nat, c: nat, depths: seq<nat>) {
    && c < |st.clos| && |depths| == |st.clos[c].code|
    && FlowFrom(st.clos[c].code, depths, b, 0, |depths|) && AtDepth(st, d, c, st.clos[c].code, depths, b)
  }

  ghost predicate ChainState(st: VM, d: nat, b: nat) {
    Nested(st) && ControlInside(st) && (InBuiltin(st, d, b) || InDepth(st, d, b))
  }

  lemma FitsStarts(st: VM, b: nat)
    requires FitsIn(st, b)
    ensures InBuiltin(st, |st.frames|, b) || InDepth(st, |st.frames|, b)
  {
    var code := st.clos[st.closure].code;
    if !Quiet(code) {
      var depths :| Consistent(code, depths, st.argnum, b);
      assert InDepthOf(st, |st.frames|, b, st.closure, depths);
    }
  }

  lemma QuietStep(st: VM, d: nat, b: nat)
    requires Nested(st) && InBuiltin(st, d, b) && b > 0 && st.status.Running?
    requires st.ip < |st.clos[st.closure].code| && !Leaves(st) && Step(st).status.Running?
    ensures InBuiltin(Step(st), d, b)
  {
    hide PrimOf, SetVar, SetVarRecurse;
  }

  lemma ChainStep(st: VM, d: nat, b: nat)
    requires ChainState(st, d, b) && Chain(b, st, 1, d) && b > 0
    ensures ChainState(Step(st), d, b)
  {
    hide Step, AtDepth, FlowFrom, FitsIn, Nested, ControlInside, Quiet;
    StepDiscipline(st);
    ControlStaysInside(st);
    var next := Step(st);
    if |st.frames| == d && Leaves(st) {
      FitsStarts(next, b);
    } else if InBuiltin(st, d, b) {
      IpInside(st);
      QuietStep(st, d, b);
    } else {
      var c: nat, depths: seq<nat> :| InDepthOf(st, d, b, c, depths);
      DepthStep(st, d, c, st.clos[c].code, depths, b);
      CodeOf(next, d, c, st.clos[c].code, depths, b);
      assert InDepthOf(next, d, b, c, depths);
    }
  }

  lemma IpInside(st: VM)
    requires ControlInside(st) && st.mode == Mode.Compiled
    ensures st.closure < |st.clos| && st.ip < |st.clos[st.closure].code|
  {
  }

  lemma CodeOf(st: VM, d: nat, c: nat, code: seq<Instr>, depths: seq<nat>, b: nat)
    requires |depths| == |code| && AtDepth(st, d, c, code, depths, b)
    ensures c < |st.clos| && st.clos[c].code == code
  {
  }

  lemma {:induction false} ChainStays(b: nat, st: VM, n: nat, d: nat)
    requires ChainState(st, d, b) && Chain(b, st, n, d) && b > 0
    ensures ChainState(After(st, n), d, b) && Above(st, n, d) && After(st, n).status.Running?
    ensures |After(st, n).frames| >= d
    decreases n
  {
    hide Step, ChainState, FitsIn;
    if n > 0 {
      assert Chain(b, Step(st), 0, d);
      ChainStep(st, d, b);
      ChainStays(b, Step(st), n - 1, d);
    }
  }

  /** Proper tail calls. Along any chain of compiled tail calls, however long, whose callees are entered with as many
      arguments as they take, and whatever the calls outside tail position do: no frame is added or lost below, every
      slot below the base stays, and whenever control is in the chain it holds at most `b` slots, where `b` bounds
      the static depths of the bodies involved. */
  lemma ConstantSpace(b: nat, st: VM, n: nat)
    requires Nested(st) && ControlInside(st) && FitsIn(st, b) && Chain(b, st, n, |st.frames|)
    ensures var now := After(st, n); var d := |st.frames|;
      && |now.frames| >= d && now.frames[..d] == st.frames
      && |now.stack| >= Base(st.frames) && now.stack[..Base(st.frames)] == st.stack[..Base(st.frames)]
      && (|now.frames| == d ==>
            now.mode == Mode.Compiled && now.argnum <= b && |now.stack| <= Base(st.frames) + b)
  {
    hide Step, FitsIn, Chain;
    var d := |st.frames|;
    FitsBound(st, b);
    FitsStarts(st, b);
    ChainStays(b, st, n, d);
    if d > 0 { CallsBalance(st, n, d); }
    var now := After(st, n);
    assert now.frames[..d] == st.frames;
    if |now.frames| == d { assert now.frames == st.frames; }
  }

  lemma FitsBound(st: VM, b: nat)
    requires FitsIn(st, b)
    ensures b > 0 && st.status.Running?
  {
  }

  /** A well-formed closure, compiled, fits when it is entered with as many arguments as it has parameters. */
  lemma WellFormedFits(p: Program, id: nat, b: nat, st: VM, closed: seq<NodeRef>)
    requires id < |p.clos| && WfClosure(p, id) && Entered(st, id)
    requires var c := p.clos[id];
      CompileClosure(Globals(p, id), c.args, c.definition) == Code(st.clos[id].code, closed)
    requires PeakList(Globals(p, id), p.clos[id].definition, ListLength(p.clos[id].args) + 1) <= b
    requires st.argnum == 1 + ListLength(p.clos[id].args)
    ensures FitsIn(st, b)
  {
    hide CompList, WfBody, PeakList, Flows, GenTopScope, ListDepths;
    ClosureConsistent(p, id, b, st.clos[id].code, closed);
  }
}
