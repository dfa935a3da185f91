/** What every step of the machine keeps, for any program in either mode. */
module FrameDiscipline {
  import opened Values
  import opened EnvStore
  import opened Compiler
  import opened Machine
  import SyntaxRules

  /** Where the running activation's slots start. */
  function Base(frames: seq<Frame>): nat {
    if frames == [] then 0 else frames[|frames| - 1].sp
  }

  /** Each frame's `sp - argnum` is the `sp` of the frame below it. */
  ghost predicate FramesNest(frames: seq<Frame>) {
    frames != [] ==>
      var below := frames[..|frames| - 1];
      FramesNest(below) && frames[|frames| - 1].sp == Base(below) + frames[|frames| - 1].argnum
  }

  /** `sp - argnum` is the top frame's `sp`, and so down the frame stack. */
  ghost predicate Nested(st: VM) {
    FramesNest(st.frames) && |st.stack| == Base(st.frames) + st.argnum
  }

  /** The state a frame asks for: one result slot more than it had, everything else as saved. */
  ghost predicate Resumed(f: Frame, st: VM) {
    && |st.stack| == f.sp + 1
    && st.argnum == f.argnum + 1
    && st.closure == f.closure
    && match f.saved
       case SavedIp(ip) => st.mode == Mode.Compiled && st.ip == ip
       case SavedPtr(ptr, env) => st.mode == Interpreted && st.ptr == ptr && st.env == env
  }

  /** The step stays at or above the running activation, whose base and frames it leaves alone. */
  ghost predicate Stays(st: VM, next: VM) {
    && |next.frames| >= |st.frames| && next.frames[..|st.frames|] == st.frames
    && |next.stack| >= Base(st.frames) && |st.stack| >= Base(st.frames)
    && next.stack[..Base(st.frames)] == st.stack[..Base(st.frames)]
  }

  /** The step is the return of the running activation. */
  ghost predicate Returns(st: VM, next: VM) {
    && st.frames != []
    && next.frames == st.frames[..|st.frames| - 1]
    && Resumed(st.frames[|st.frames| - 1], next)
    && |st.stack| >= Base(st.frames)
    && next.stack[..Base(st.frames)] == st.stack[..Base(st.frames)]
  }

  ghost predicate Disciplined(st: VM, next: VM) {
    next.status.Running? ==> Nested(next) && (Stays(st, next) || Returns(st, next))
  }

  // ---------- one operation at a time ----------

  lemma PushFrameNests(frames: seq<Frame>, f: Frame)
    requires FramesNest(frames) && f.sp == Base(frames) + f.argnum
    ensures FramesNest(frames + [f])
  {
    assert (frames + [f])[..|frames|] == frames;
  }

  lemma EvalDiscipline(st: VM, ptr: Value)
    requires Nested(st)
    ensures Nested(CallEval(st, ptr)) && Stays(st, CallEval(st, ptr))
  {
    assert CallEval(st, ptr).frames[..|st.frames|] == st.frames;
  }

  lemma StaysTwice(a: VM, b: VM, c: VM)
    requires Nested(a) && Nested(b) && Stays(a, b) && Stays(b, c)
    ensures Stays(a, c)
  {
    assert c.frames[..|a.frames|] == b.frames[..|a.frames|];
    BaseGrows(b.frames, |a.frames|);
    assert c.stack[..Base(a.frames)] == c.stack[..Base(b.frames)][..Base(a.frames)];
  }

  /** Lower frames start lower. */
  lemma BaseGrows(frames: seq<Frame>, k: nat)
    requires FramesNest(frames) && k <= |frames|
    ensures FramesNest(frames[..k]) && Base(frames[..k]) <= Base(frames)
  {
    if k < |frames| {
      var below := frames[..|frames| - 1];
      BaseGrows(below, k);
      assert below[..k] == frames[..k];
    } else {
      assert frames[..k] == frames;
    }
  }

  lemma ReturnDiscipline(st: VM, valued: VM)
    requires Nested(st) && valued.frames == st.frames && |valued.stack| >= Base(st.frames)
    requires valued.stack[..Base(st.frames)] == st.stack[..Base(st.frames)]
    ensures Disciplined(st, CallReturn(valued))
  {
  }

  lemma ApplyDiscipline(st: VM)
    requires Nested(st)
    ensures Disciplined(st, CallApply(st))
  {
  }

  lemma IfDiscipline(st: VM, expr: Value)
    requires Nested(st)
    ensures Disciplined(st, HandleIf(st, expr))
  {
    if expr.Pair? && expr.cdr.Pair? && expr.cdr.cdr.Pair? {
      var st0 := Push(st, Run(SetPtr)).(ptr := Null);
      var st1 := CallEval(st0, Null);
      EvalDiscipline(st0, Null);
      var st2 := Push(Push(Push(st1, Closure(INTERN_IF)), expr.cdr.car), expr.cdr.cdr.car);
      EvalDiscipline(st2, expr.car);
      StaysTwice(st0, st1, st2);
      StaysTwice(st0, st2, CallEval(st2, expr.car));
      StaysTwice(st, st0, CallEval(st2, expr.car));
    }
  }

  lemma DefineDiscipline(st: VM, kind: RunType, expr: Value)
    requires Nested(st)
    ensures Disciplined(st, HandleDefine(st, kind, expr))
  {
  }

  lemma SpecialFormDiscipline(st: VM, kind: RunType, expr: Value)
    requires Nested(st)
    ensures Disciplined(st, HandleSpecialForm(st, kind, expr))
  {
    hide HandleDefine, HandleIf, CallReturn;
    match kind
    case Lambda =>
      if expr.Pair? && (expr.car.Pair? || expr.car.Null?) && expr.cdr.Pair? {
        ReturnDiscipline(st, Push(NewClosure(st, expr.car, expr.cdr), Closure(|st.clos|)));
      }
    case If => IfDiscipline(st, expr);
    case Define => DefineDiscipline(st, kind, expr);
    case SetBang => DefineDiscipline(st, kind, expr);
    case DefineSyntax => DefineDiscipline(st, kind, expr);
    case _ =>
  }

  lemma MacroDiscipline(st: VM, rules: Value, form: Value)
    requires rules.Rules? && Nested(st)
    ensures Disciplined(st, HandleMacro(st, rules, form))
  {
    var st1 := Push(Push(st, Closure(RETURN_LAST)), Null).(ptr := Null);
    var st2 := Push(Push(st1, Closure(RETURN_LAST)), Null);
    match SyntaxRules.ExpandRules(rules.keywords, rules.patterns, form)
    case Expanded(value) =>
      EvalDiscipline(st2, value);
      StaysTwice(st, st2, Push(CallEval(st2, value), Closure(RETURN_LAST)));
    case _ =>
  }

  /** Steps that change only the top of the activation's own slots. */
  lemma OwnStepDiscipline(st: VM, next: VM)
    requires Nested(st) && next.frames == st.frames
    requires |next.stack| == Base(st.frames) + next.argnum
    requires next.stack[..Base(st.frames)] == st.stack[..Base(st.frames)]
    ensures Disciplined(st, next)
  {
    assert next.frames[..|st.frames|] == st.frames;
  }

  lemma PushDiscipline(st: VM, v: Value)
    requires Nested(st)
    ensures Disciplined(st, Push(st, v)) && Disciplined(st, Next(Push(st, v)))
  {
    hide Disciplined, FramesNest;
    OwnStepDiscipline(st, Push(st, v));
    OwnStepDiscipline(st, Next(Push(st, v)));
  }

  lemma SymbolDiscipline(st: VM, head: Value, rest: Value, v: Value)
    requires Nested(st) && st.ptr == Pair(head, rest)
    ensures IsSpecialForm(v) ==> Disciplined(st, HandleSpecialForm(st.(ptr := rest), v.kind, rest))
    ensures v.Rules? ==> Disciplined(st, HandleMacro(st.(ptr := rest), v, st.ptr))
    ensures Disciplined(st, Push(st.(ptr := rest), v))
  {
    hide HandleSpecialForm, HandleMacro, FramesNest, Resumed;
    var st1 := st.(ptr := rest);
    if IsSpecialForm(v) { SpecialFormDiscipline(st1, v.kind, rest); }
    if v.Rules? { MacroDiscipline(st1, v, st.ptr); }
    PushDiscipline(st1, v);
  }

  lemma InterpretedStepDiscipline(st: VM)
    requires Nested(st)
    ensures Disciplined(st, StepInterpreted(st))
  {
    hide HandleSpecialForm, HandleMacro, CallApply, CallReturn, FramesNest, Resumed;
    match st.ptr
    case Pair(head, rest) =>
      var st1 := st.(ptr := rest);
      if head.Pair? {
        EvalDiscipline(st1, head);
      } else if !head.Sym? {
        PushDiscipline(st1, head);
      } else if Lookup(st.envs, st.env, head).Some? {
        SymbolDiscipline(st, head, rest, Lookup(st.envs, st.env, head).value);
      }
    case Null => ApplyDiscipline(st);
    case atom =>
      var v := if atom.Sym? then Lookup(st.envs, st.env, atom) else Some(atom);
      if v.Some? {
        ReturnDiscipline(st, st.(stack := st.stack + [v.value]));
      }
  }

  /** A call's frame nests, and the callee's state stays above the caller's base. */
  lemma CallPushes(st: VM, arg: nat, called: VM)
    requires Nested(st) && arg <= st.argnum
    requires var frame := Frame(st.closure, |st.stack| - st.argnum + arg, arg, SavedIp(st.ip + 1));
      called == st.(frames := st.frames + [frame], argnum := st.argnum - arg)
    ensures Nested(called) && Stays(st, called)
  {
    PushFrameNests(st.frames, called.frames[|st.frames|]);
    assert called.frames[..|st.frames|] == st.frames;
  }

  lemma CalleeDiscipline(st: VM, called: VM, next: VM)
    requires Nested(st) && Nested(called) && Stays(st, called) && |called.frames| > |st.frames|
    requires Disciplined(called, next)
    ensures Disciplined(st, next)
  {
    if next.status.Running? {
      if Stays(called, next) {
        StaysTwice(st, called, next);
      } else {
        BaseGrows(called.frames, |st.frames|);
        assert next.frames[..|st.frames|] == called.frames[..|st.frames|];
        assert next.stack[..Base(st.frames)] == next.stack[..Base(called.frames)][..Base(st.frames)];
        assert called.stack[..Base(st.frames)] == called.stack[..Base(called.frames)][..Base(st.frames)];
      }
    }
  }

  lemma CallDiscipline(st: VM, arg: nat)
    requires Nested(st)
    ensures Disciplined(st, OpDoCall(st, arg))
  {
    hide CallApply, FramesNest, Stays, Returns;
    if arg <= st.argnum {
      var frame := Frame(st.closure, |st.stack| - st.argnum + arg, arg, SavedIp(st.ip + 1));
      var called := st.(frames := st.frames + [frame], argnum := st.argnum - arg);
      CallPushes(st, arg, called);
      ApplyDiscipline(called);
      CalleeDiscipline(st, called, CallApply(called));
    }
  }

  /** A step from a state with the same frames and the same slots below the base. */
  lemma SameBelow(st: VM, moved: VM, next: VM)
    requires Nested(st) && Nested(moved) && moved.frames == st.frames
    requires moved.stack[..Base(st.frames)] == st.stack[..Base(st.frames)]
    requires Disciplined(moved, next)
    ensures Disciplined(st, next)
  {
    hide FramesNest;
  }

  lemma TailCallDiscipline(st: VM, arg: nat)
    requires Nested(st)
    ensures Disciplined(st, OpDoTailCall(st, arg))
  {
    hide CallApply, FramesNest, Stays, Returns;
    if arg <= st.argnum {
      var base := |st.stack| - st.argnum;
      var moved := st.(stack := st.stack[..base] + st.stack[base + arg..], argnum := st.argnum - arg, ip := 0);
      ApplyDiscipline(moved);
      SameBelow(st, moved, CallApply(moved));
    }
  }

  lemma InternSetDiscipline(st: VM, recurse: bool)
    requires Nested(st)
    ensures Disciplined(st, OpInternSet(st, recurse))
  {
    hide SetVar, SetVarRecurse;
  }

  lemma InternIfDiscipline(st: VM)
    requires Nested(st)
    ensures Disciplined(st, OpInternIf(st))
  {
  }

  lemma PrimDiscipline(st: VM, op: Primitive)
    requires Nested(st)
    ensures Disciplined(st, OpPrim(st, op))
  {
    hide PrimOf;
  }

  lemma ReferenceDiscipline(st: VM, slot: nat)
    requires Nested(st)
    ensures Disciplined(st, OpClosureRef(st, slot)) && Disciplined(st, OpStackRef(st, slot))
  {
    hide FramesNest, Stays, Returns;
    if OpClosureRef(st, slot).status.Running? {
      var node := st.clos[st.closure].closed[slot];
      PushDiscipline(st, st.envs[node.env].vars[node.key]);
    }
    if OpStackRef(st, slot).status.Running? {
      PushDiscipline(st, st.stack[|st.stack| - st.argnum + slot]);
    }
  }

  lemma BranchDiscipline(st: VM, target: nat)
    requires Nested(st)
    ensures Disciplined(st, OpJumpIfFalse(st, target))
  {
    hide FramesNest, Stays, Returns;
    if OpJumpIfFalse(st, target).status.Running? {
      OwnStepDiscipline(st, OpJumpIfFalse(st, target));
    }
  }

  lemma ReturnLastDiscipline(st: VM)
    requires Nested(st)
    ensures Disciplined(st, OpReturnLast(st))
  {
    if st.argnum > 0 {
      ReturnDiscipline(st,
        st.(stack := st.stack[..|st.stack| - st.argnum] + [st.stack[|st.stack| - 1]], argnum := st.argnum - 1));
    }
  }

  lemma ExecuteDiscipline(st: VM, instr: Instr)
    requires Nested(st) && st.status.Running?
    ensures Disciplined(st, Execute(st, instr))
  {
    match instr
    case DoCall(arg) => CallDiscipline(st, arg);
    case DoTailCall(arg) => TailCallDiscipline(st, arg);
    case JumpIfFalse(target) => BranchDiscipline(st, target);
    case Jump(target) =>
    case PushConst(v) => PushDiscipline(st, v);
    case ClosureRef(slot) => ReferenceDiscipline(st, slot);
    case StackRef(slot) => ReferenceDiscipline(st, slot);
    case ReturnLast => ReturnLastDiscipline(st);
    case Return => ReturnDiscipline(st, st);
    case Prim(op) => PrimDiscipline(st, op);
    case InternDefine => InternSetDiscipline(st, false);
    case InternSet => InternSetDiscipline(st, true);
    case InternIf => InternIfDiscipline(st);
  }

  /** The frame protocol survives every running step of every program, in both modes. */
  lemma StepDiscipline(st: VM)
    requires st.status.Running? && Nested(st)
    ensures Disciplined(st, Step(st))
  {
    if st.mode == Mode.Compiled {
      if st.closure < |st.clos| && st.ip < |st.clos[st.closure].code| {
        ExecuteDiscipline(st, st.clos[st.closure].code[st.ip]);
      }
    } else {
      InterpretedStepDiscipline(st);
    }
  }

  // ---------- whole runs ----------

  function After(st: VM, n: nat): VM
    decreases n
  {
    if n == 0 then st else After(Step(st), n - 1)
  }

  /** All of the first `n` states run with at least `d` frames. */
  ghost predicate Above(st: VM, n: nat, d: nat)
    decreases n
  {
    n > 0 ==> st.status.Running? && |st.frames| >= d && Above(Step(st), n - 1, d)
  }

  /** From an empty machine, frames nest in every running state of every run. */
  lemma {:induction false} RunsNest(st: VM, n: nat)
    requires Nested(st) && After(st, n).status.Running?
    ensures Nested(After(st, n))
    decreases n
  {
    hide Step;
    if n > 0 {
      if !st.status.Running? {
        Halted(st, n);
      } else {
        if !Step(st).status.Running? {
          Halted(Step(st), n - 1);
        }
        StepDiscipline(st);
        RunsNest(Step(st), n - 1);
      }
    }
  }

  lemma {:induction false} Halted(st: VM, n: nat)
    requires !st.status.Running?
    ensures After(st, n) == st
  {
    if n > 0 { Halted(st, n - 1); }
  }

  lemma {:induction false} AfterSum(st: VM, m: nat, n: nat)
    ensures After(st, m + n) == After(After(st, m), n)
    decreases m
  {
    hide Step;
    if m > 0 { AfterSum(Step(st), m - 1, n); }
  }

  /** One step seen from a lower activation. */
  lemma StepSeenFromBelow(st: VM, d: nat)
    requires st.status.Running? && Nested(st) && 0 < d <= |st.frames| && Step(st).status.Running?
    ensures var next := Step(st); var sp := st.frames[d - 1].sp;
      && Nested(next) && sp <= |next.stack| && sp <= |st.stack| && next.stack[..sp] == st.stack[..sp]
      && (if |next.frames| >= d then next.frames[..d] == st.frames[..d]
          else next.frames == st.frames[..d - 1] && Resumed(st.frames[d - 1], next))
  {
    hide Step;
    StepDiscipline(st);
    var next := Step(st);
    var sp := st.frames[d - 1].sp;
    BaseGrows(st.frames, d);
    assert next.stack[..sp] == next.stack[..Base(st.frames)][..sp];
    assert st.stack[..sp] == st.stack[..Base(st.frames)][..sp];
    if Stays(st, next) {
      assert next.frames[..d] == next.frames[..|st.frames|][..d];
    } else if |next.frames| < d {
      assert d == |st.frames|;
    }
  }

  /** From the call that pushed frame `d - 1` to the step that pops it, whatever ran in between and in
      whichever mode: the caller resumes with its closure, mode and continuation as saved, exactly one
      slot more than it had, and every slot below unchanged. */
  lemma {:induction false} CallsBalance(st: VM, n: nat, d: nat)
    requires Nested(st) && 0 < d <= |st.frames|
    requires Above(st, n, d) && After(st, n).status.Running?
    ensures var post := After(st, n); var f := st.frames[d - 1];
      && f.sp <= |post.stack| && f.sp <= |st.stack| && post.stack[..f.sp] == st.stack[..f.sp]
      && (if |post.frames| >= d then post.frames[..d] == st.frames[..d]
          else post.frames == st.frames[..d - 1] && Resumed(f, post))
    decreases n
  {
    hide Step;
    BaseGrows(st.frames, d);
    if n > 0 {
      var next := Step(st);
      StepSeenFromBelow(st, d);
      if |next.frames| >= d {
        CallsBalance(next, n - 1, d);
        assert next.frames[d - 1] == next.frames[..d][d - 1];
      } else {
        assert n == 1;
      }
    }
  }
}
