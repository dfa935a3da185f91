/** Control never leaves the code: jumps are patched forward, and code ends in a return. */
module CodeShape {
  import opened Values
  import opened EnvStore
  import opened Compiler
  import opened Machine
  import opened CodeLayout
  import SyntaxRules

  /** Instruction `at` of code of length `n` can only continue later in that code. */
  predicate ContinuesInside(instr: Instr, at: nat, n: nat) {
    match instr
    case Jump(target) => at < target < n
    case JumpIfFalse(target) => at < target < n && at + 1 < n
    case DoTailCall(_) => at < n
    case ReturnLast => at < n
    case Return => at < n
    case _ => at + 1 < n
  }

  ghost predicate Shaped(code: seq<Instr>) {
    code != [] && forall i | 0 <= i < |code| :: ContinuesInside(code[i], i, |code|)
  }

  /** A stretch of code at index `ip` continues forward, at the latest right behind itself. */
  ghost predicate Stretch(part: seq<Instr>, ip: nat) {
    forall i | 0 <= i < |part| :: ContinuesInside(part[i], ip + i, ip + |part| + 1)
  }

  lemma StretchConcat(a: seq<Instr>, b: seq<Instr>, ip: nat)
    requires Stretch(a, ip) && Stretch(b, ip + |a|)
    ensures Stretch(a + b, ip)
  {
    forall i | 0 <= i < |a + b| ensures ContinuesInside((a + b)[i], ip + i, ip + |a + b| + 1) {
      if i < |a| {
        assert (a + b)[i] == a[i];
        assert ContinuesInside(a[i], ip + i, ip + |a| + 1);
      } else {
        assert (a + b)[i] == b[i - |a|];
        assert ContinuesInside(b[i - |a|], ip + |a| + (i - |a|), ip + |a| + |b| + 1);
      }
    }
  }

  lemma {:induction false} ElemStretch(g: Bindings, t: Table, e: Value, tail: bool, d: nat, ip: nat)
    ensures Stretch(CompElem(g, t, e, tail, d, ip), ip)
    decreases e, 1
  {
    if e.Pair? {
      if IsStatement(g, e, If) {
        IfStretch(g, t, e, tail, d, ip);
      } else if IsStatement(g, e, Define) {
        if e.cdr.Pair? { ListStretch(g, t, e.cdr.cdr, false, d, ip); }
      } else if IsStatement(g, e, Begin) {
        ListStretch(g, t, e.cdr, tail, d, ip);
      } else {
        ListStretch(g, t, e, false, d, ip);
        var operands := CompList(g, t, e, false, d, ip);
        var call := [if tail then DoTailCall(d) else DoCall(d)];
        assert Stretch(call, ip + |operands|);
        StretchConcat(operands, call, ip);
      }
    }
  }

  lemma {:induction false} IfStretch(g: Bindings, t: Table, e: Value, tail: bool, d: nat, ip: nat)
    requires IsStatement(g, e, If)
    ensures Stretch(CompElem(g, t, e, tail, d, ip), ip)
    decreases e, 0
  {
    hide Stretch, CompElem;
    var test, left, right := IfCode(g, t, e, tail, d, ip);
    NothingStretches(ip);
    NothingStretches(ip + |test| + 1);
    NothingStretches(ip + |test| + |left| + 2);
    if e.cdr.Pair? {
      ElemStretch(g, t, e.cdr.car, false, d, ip);
      if e.cdr.cdr.Pair? {
        ElemStretch(g, t, e.cdr.cdr.car, tail, d, ip + |test| + 1);
        if e.cdr.cdr.cdr.Pair? {
          ElemStretch(g, t, e.cdr.cdr.cdr.car, tail, d, ip + |test| + |left| + 2);
        }
      }
    }
    IfPiecesStretch(test, left, right, ip);
  }

  lemma NothingStretches(ip: nat)
    ensures Stretch([], ip)
  {
  }

  lemma IfPiecesStretch(test: seq<Instr>, left: seq<Instr>, right: seq<Instr>, ip: nat)
    requires Stretch(test, ip) && Stretch(left, ip + |test| + 1) && Stretch(right, ip + |test| + |left| + 2)
    ensures Stretch(Branches(test, left, right, ip), ip)
  {
    var second := ip + |test| + |left| + 2;
    var arms := left + [Jump(second + |right|)] + right;
    StretchJump(left, right, ip + |test| + 1);
    var rest := [JumpIfFalse(second)] + arms;
    forall i | 0 <= i < |rest| ensures ContinuesInside(rest[i], ip + |test| + i, ip + |test| + |rest| + 1) {
      if i > 0 {
        assert rest[i] == arms[i - 1];
        assert ContinuesInside(arms[i - 1], ip + |test| + 1 + (i - 1), ip + |test| + 1 + |arms| + 1);
      }
    }
    StretchConcat(test, rest, ip);
    assert test + rest == test + [JumpIfFalse(second)] + left + [Jump(second + |right|)] + right;
  }

  lemma StretchJump(left: seq<Instr>, right: seq<Instr>, ip: nat)
    requires Stretch(left, ip) && Stretch(right, ip + |left| + 1)
    ensures Stretch(left + [Jump(ip + |left| + 1 + |right|)] + right, ip)
  {
    var skip := [Jump(ip + |left| + 1 + |right|)];
    var rest := skip + right;
    forall i | 0 <= i < |rest| ensures ContinuesInside(rest[i], ip + |left| + i, ip + |left| + |rest| + 1) {
      if i > 0 {
        assert rest[i] == right[i - 1];
        assert ContinuesInside(right[i - 1], ip + |left| + 1 + (i - 1), ip + |left| + 1 + |right| + 1);
      }
    }
    StretchConcat(left, rest, ip);
    assert left + rest == left + skip + right;
  }

  lemma {:induction false} ListStretch(g: Bindings, t: Table, list: Value, tail: bool, d: nat, ip: nat)
    ensures Stretch(CompList(g, t, list, tail, d, ip), ip)
    decreases list, 0
  {
    if list.Pair? {
      var first := CompElem(g, t, list.car, tail && list.cdr == Null, d, ip);
      ElemStretch(g, t, list.car, tail && list.cdr == Null, d, ip);
      ListStretch(g, t, list.cdr, tail, d + 1, ip + |first|);
      StretchConcat(first, CompList(g, t, list.cdr, tail, d + 1, ip + |first|), ip);
    }
  }

  /** Whatever the closure, every patched jump of its code goes forward to an index of that code. */
  lemma CompiledCodeShaped(g: Bindings, args: Value, body: Value)
    ensures CompileClosure(g, args, body).Code? ==> Shaped(CompileClosure(g, args, body).code)
  {
    hide CompList;
    if CompileClosure(g, args, body).Code? {
      var t := GenTopScope(g, args, body).value.table;
      var code := CompList(g, t, body, true, ListLength(args) + 1, 0);
      ListStretch(g, t, body, true, ListLength(args) + 1, 0);
      forall i | 0 <= i < |code| + 1 ensures ContinuesInside((code + [ReturnLast])[i], i, |code| + 1) {
        if i < |code| { assert ContinuesInside(code[i], 0 + i, 0 + |code| + 1); }
      }
    }
  }

  // ---------- control stays inside, in every run ----------

  ghost predicate InCode(clos: seq<Clos>, id: nat, ip: nat) {
    id < |clos| && clos[id].compiled && ip < |clos[id].code|
  }

  ghost predicate AllShaped(clos: seq<Clos>) {
    forall id | 0 <= id < |clos| && clos[id].compiled :: Shaped(clos[id].code)
  }

  ghost predicate FramesInCode(clos: seq<Clos>, frames: seq<Frame>) {
    forall k | 0 <= k < |frames| && frames[k].saved.SavedIp? :: InCode(clos, frames[k].closure, frames[k].saved.ip)
  }

  /** Compiled closures have shaped code; the running one and every suspended one is inside its code. */
  ghost predicate ControlInside(st: VM) {
    && AllShaped(st.clos)
    && FramesInCode(st.clos, st.frames)
    && (st.mode == Mode.Compiled ==> InCode(st.clos, st.closure, st.ip))
  }

  /** The closure table may grow, and closures may be compiled once. */
  ghost predicate Later(clos: seq<Clos>, more: seq<Clos>) {
    && |clos| <= |more|
    && forall id | 0 <= id < |clos| && clos[id].compiled :: more[id].compiled && more[id].code == clos[id].code
  }

  lemma FramesLater(clos: seq<Clos>, more: seq<Clos>, frames: seq<Frame>)
    requires FramesInCode(clos, frames) && Later(clos, more)
    ensures FramesInCode(more, frames)
  {
  }

  lemma ReturnInside(st: VM)
    requires AllShaped(st.clos) && FramesInCode(st.clos, st.frames) && CallReturn(st).status.Running?
    ensures ControlInside(CallReturn(st))
  {
  }

  lemma CountCallLater(envs: seq<EnvFrame>, clos: seq<Clos>, id: nat)
    requires AllShaped(clos) && id < |clos| && !clos[id].compiled && CountCall(envs, clos[id]).Warm?
    ensures var more := clos[id := CountCall(envs, clos[id]).clos]; AllShaped(more) && Later(clos, more)
  {
    CompiledCodeShaped(Flatten(envs, clos[id].env), clos[id].args, clos[id].definition);
  }

  lemma ApplyInside(st: VM)
    requires AllShaped(st.clos) && FramesInCode(st.clos, st.frames) && CallApply(st).status.Running?
    requires st.mode == Mode.Compiled ==>
               || InCode(st.clos, st.closure, st.ip)
               || (0 < st.argnum <= |st.stack| && st.stack[|st.stack| - st.argnum].Closure?)
    ensures ControlInside(CallApply(st))
  {
    hide CountCall;
    match st.stack[|st.stack| - st.argnum]
    case Closure(id) =>
      if !st.clos[id].compiled {
        CountCallLater(st.envs, st.clos, id);
        FramesLater(st.clos, st.clos[id := CountCall(st.envs, st.clos[id]).clos], st.frames);
      }
    case _ =>
  }

  lemma NewClosureInside(st: VM, args: Value, body: Value)
    requires AllShaped(st.clos) && FramesInCode(st.clos, st.frames)
    ensures var next := NewClosure(st, args, body); AllShaped(next.clos) && FramesInCode(next.clos, st.frames)
  {
    FramesLater(st.clos, NewClosure(st, args, body).clos, st.frames);
  }

  lemma SpecialFormInside(st: VM, kind: RunType, expr: Value)
    requires ControlInside(st) && st.mode == Interpreted && HandleSpecialForm(st, kind, expr).status.Running?
    ensures ControlInside(HandleSpecialForm(st, kind, expr))
  {
    hide CallReturn;
    match kind
    case Lambda =>
      if expr.Pair? && (expr.car.Pair? || expr.car.Null?) && expr.cdr.Pair? {
        NewClosureInside(st, expr.car, expr.cdr);
        ReturnInside(Push(NewClosure(st, expr.car, expr.cdr), Closure(|st.clos|)));
      }
    case Define => DefineInside(st, kind, expr);
    case SetBang => DefineInside(st, kind, expr);
    case DefineSyntax => DefineInside(st, kind, expr);
    case _ =>
  }

  lemma DefineInside(st: VM, kind: RunType, expr: Value)
    requires ControlInside(st) && st.mode == Interpreted && HandleDefine(st, kind, expr).status.Running?
    ensures ControlInside(HandleDefine(st, kind, expr))
  {
    if expr.car.Pair? {
      NewClosureInside(st, expr.car.cdr, expr.cdr);
    }
  }

  lemma InterpretedStepInside(st: VM)
    requires ControlInside(st) && st.mode == Interpreted && StepInterpreted(st).status.Running?
    ensures ControlInside(StepInterpreted(st))
  {
    hide CallReturn, CallApply, HandleSpecialForm;
    match st.ptr
    case Pair(head, rest) =>
      if head.Sym? && Lookup(st.envs, st.env, head).Some? && st.argnum == 0 {
        var v := Lookup(st.envs, st.env, head).value;
        if IsSpecialForm(v) { SpecialFormInside(st.(ptr := rest), v.kind, rest); }
      }
    case Null => ApplyInside(st);
    case atom =>
      var v := if atom.Sym? then Lookup(st.envs, st.env, atom) else Some(atom);
      if v.Some? { ReturnInside(st.(stack := st.stack + [v.value])); }
  }

  lemma CallInside(st: VM, arg: nat)
    requires ControlInside(st) && st.mode == Mode.Compiled && st.clos[st.closure].code[st.ip] == DoCall(arg)
    requires OpDoCall(st, arg).status.Running?
    ensures ControlInside(OpDoCall(st, arg))
  {
    hide CallApply;
    var frame := Frame(st.closure, |st.stack| - st.argnum + arg, arg, SavedIp(st.ip + 1));
    var frames := st.frames + [frame];
    assert ContinuesInside(DoCall(arg), st.ip, |st.clos[st.closure].code|);
    forall k | 0 <= k < |frames| && frames[k].saved.SavedIp?
      ensures InCode(st.clos, frames[k].closure, frames[k].saved.ip)
    {
      if k < |st.frames| { assert frames[k] == st.frames[k]; }
    }
    ApplyInside(st.(frames := frames, argnum := st.argnum - arg));
  }

  lemma TailCallInside(st: VM, arg: nat)
    requires ControlInside(st) && st.mode == Mode.Compiled && OpDoTailCall(st, arg).status.Running?
    ensures ControlInside(OpDoTailCall(st, arg))
  {
    hide CallApply;
    var base := |st.stack| - st.argnum;
    assert Shaped(st.clos[st.closure].code);
    ApplyInside(st.(stack := st.stack[..base] + st.stack[base + arg..], argnum := st.argnum - arg, ip := 0));
  }

  /** `next` is later in the same activation of the same code. */
  ghost predicate MovesOn(st: VM, next: VM, target: nat) {
    && next.closure == st.closure && next.mode == st.mode && next.frames == st.frames && next.clos == st.clos
    && next.ip == target
  }

  lemma PrimMovesOn(st: VM, op: Primitive)
    requires OpPrim(st, op).status.Running?
    ensures MovesOn(st, OpPrim(st, op), st.ip + 1)
  {
    hide PrimOf;
  }

  lemma InternMovesOn(st: VM, recurse: bool)
    ensures OpInternSet(st, recurse).status.Running? ==> MovesOn(st, OpInternSet(st, recurse), st.ip + 1)
    ensures OpInternIf(st).status.Running? ==> MovesOn(st, OpInternIf(st), st.ip + 1)
  {
    hide SetVar, SetVarRecurse;
  }

  lemma BranchMovesOn(st: VM, target: nat)
    requires OpJumpIfFalse(st, target).status.Running?
    ensures MovesOn(st, OpJumpIfFalse(st, target), target) || MovesOn(st, OpJumpIfFalse(st, target), st.ip + 1)
  {
  }

  lemma ReferenceMovesOn(st: VM, slot: nat)
    ensures OpClosureRef(st, slot).status.Running? ==> MovesOn(st, OpClosureRef(st, slot), st.ip + 1)
    ensures OpStackRef(st, slot).status.Running? ==> MovesOn(st, OpStackRef(st, slot), st.ip + 1)
  {
  }

  /** Instructions that neither call nor return move `ip` forward, inside the code. */
  lemma OwnStepForward(st: VM, instr: Instr)
    requires ControlInside(st) && st.mode == Mode.Compiled && st.clos[st.closure].code[st.ip] == instr
    requires !instr.DoCall? && !instr.DoTailCall? && !instr.ReturnLast? && !instr.Return?
    requires Execute(st, instr).status.Running?
    ensures var next := Execute(st, instr);
      && next.closure == st.closure && next.mode == st.mode && next.frames == st.frames && next.clos == st.clos
      && st.ip < next.ip < |st.clos[st.closure].code|
  {
    hide OpPrim, OpInternSet, OpInternIf, OpClosureRef, OpStackRef, OpJumpIfFalse, OpDoCall, OpDoTailCall, OpReturnLast,
      CallReturn;
    assert ContinuesInside(instr, st.ip, |st.clos[st.closure].code|);
    match instr
    case Prim(op) => PrimMovesOn(st, op);
    case InternDefine => InternMovesOn(st, false);
    case InternSet => InternMovesOn(st, true);
    case InternIf => InternMovesOn(st, true);
    case JumpIfFalse(target) => BranchMovesOn(st, target);
    case ClosureRef(slot) => ReferenceMovesOn(st, slot);
    case StackRef(slot) => ReferenceMovesOn(st, slot);
    case _ =>
  }

  lemma CompiledStepInside(st: VM)
    requires ControlInside(st) && st.mode == Mode.Compiled && StepCompiled(st).status.Running?
    ensures ControlInside(StepCompiled(st))
  {
    hide CallReturn, CallApply, OpDoCall, OpDoTailCall, OpPrim, OpInternSet, OpInternIf, OpClosureRef, OpStackRef,
      OpJumpIfFalse;
    var instr := st.clos[st.closure].code[st.ip];
    match instr
    case DoCall(arg) => CallInside(st, arg);
    case DoTailCall(arg) => TailCallInside(st, arg);
    case ReturnLast =>
      if 0 < st.argnum <= |st.stack| {
        var top := [st.stack[|st.stack| - 1]];
        ReturnInside(st.(stack := st.stack[..|st.stack| - st.argnum] + top, argnum := st.argnum - 1));
      }
    case Return => ReturnInside(st);
    case _ => OwnStepForward(st, instr);
  }

  /** In every run of any program, in both modes, the instruction pointer of the running activation and
      of every suspended one stays inside its closure's code. */
  lemma ControlStaysInside(st: VM)
    requires st.status.Running? && ControlInside(st) && Step(st).status.Running?
    ensures ControlInside(Step(st))
  {
    hide StepCompiled, StepInterpreted;
    if st.mode == Mode.Compiled { CompiledStepInside(st); } else { InterpretedStepInside(st); }
  }
}
