/** An activation runs the same whatever lies below it. */
module Contexts {
  import opened Values
  import opened EnvStore
  import opened Compiler
  import opened Machine
  import opened FrameDiscipline
  import opened Activations
  import SyntaxRules

  /** Below an activation, `k` frames and `b` slots; in its other place, `frames` and `slots`. */
  datatype Move = Move(k: nat, b: nat, frames: seq<Frame>, slots: seq<Value>) {
    ghost predicate Valid() { FramesNest(frames) && Base(frames) == |slots| }

    /** Slots from `b` on, over the other ones. */
    function Slots(stack: seq<Value>): seq<Value>
      requires b <= |stack|
    {
      slots + stack[b..]
    }

    function Frame(f: Frame): Frame
      requires b <= f.sp
    {
      f.(sp := f.sp - b + |slots|)
    }

    function Frames(fs: seq<Frame>): seq<Frame>
      requires k <= |fs| && forall i | k <= i < |fs| :: b <= fs[i].sp
    {
      frames + seq(|fs| - k, i requires 0 <= i < |fs| - k => Frame(fs[k + i]))
    }

    /** The machine is at or above the activation. */
    ghost predicate Covers(st: VM) {
      && k <= |st.frames| && b == Base(st.frames[..k])
      && (forall i | k <= i < |st.frames| :: b <= st.frames[i].sp)
      && |st.stack| >= b
    }

    ghost predicate Holds(st: VM) {
      Covers(st) && b <= Base(st.frames) && Base(st.frames) + st.argnum == |st.stack|
    }

    /** The machine with the activation, and all above it, in its other place. */
    function Of(st: VM): VM
      requires k <= |st.frames| && (forall i | k <= i < |st.frames| :: b <= st.frames[i].sp) && b <= |st.stack|
    {
      st.(stack := Slots(st.stack), frames := Frames(st.frames))
    }
  }

  // ---------- slots and frames ----------

  lemma SlotsGrow(m: Move, stack: seq<Value>, more: seq<Value>)
    requires m.b <= |stack|
    ensures m.Slots(stack + more) == m.Slots(stack) + more
  {
  }

  lemma SlotsCut(m: Move, stack: seq<Value>, i: nat)
    requires m.b <= i <= |stack|
    ensures m.Slots(stack[..i]) == m.Slots(stack)[..i - m.b + |m.slots|]
    ensures m.Slots(stack)[i - m.b + |m.slots|..] == stack[i..]
  {
  }

  lemma SlotsLength(m: Move, stack: seq<Value>)
    requires m.b <= |stack|
    ensures |m.Slots(stack)| == |m.slots| + |stack| - m.b
  {
  }

  /** The slots from `i` on replaced by others. */
  lemma SlotsReplaced(m: Move, stack: seq<Value>, i: nat, more: seq<Value>)
    requires m.b <= i <= |stack|
    ensures i - m.b + |m.slots| <= |m.Slots(stack)|
    ensures m.Slots(stack[..i] + more) == m.Slots(stack)[..i - m.b + |m.slots|] + more
  {
  }

  lemma SlotAt(m: Move, stack: seq<Value>, i: nat)
    requires m.b <= i < |stack|
    ensures m.Slots(stack)[i - m.b + |m.slots|] == stack[i]
  {
  }

  lemma FramesGrow(m: Move, fs: seq<Frame>, f: Frame)
    requires m.k <= |fs| && (forall i | m.k <= i < |fs| :: m.b <= fs[i].sp) && m.b <= f.sp
    ensures m.Frames(fs + [f]) == m.Frames(fs) + [m.Frame(f)]
  {
  }

  lemma FramesCut(m: Move, fs: seq<Frame>)
    requires m.k < |fs| && (forall i | m.k <= i < |fs| :: m.b <= fs[i].sp)
    ensures var top := |fs| - 1;
      && m.Frames(fs) != [] && m.Frames(fs)[..|m.Frames(fs)| - 1] == m.Frames(fs[..top])
      && m.Frames(fs)[|m.Frames(fs)| - 1] == m.Frame(fs[top])
  {
  }

  // ---------- returns ----------

  /** A return from above the activation is the same in both places. */
  lemma ReturnMoves(m: Move, st: VM)
    requires m.Covers(st) && |st.frames| > m.k && !st.status.Done?
    ensures CallReturn(st).status.Undefined? <==> CallReturn(m.Of(st)).status.Undefined?
    ensures !CallReturn(st).status.Undefined? ==>
      var next := CallReturn(st);
      m.Covers(next) && !next.status.Done? && CallReturn(m.Of(st)) == m.Of(next)
  {
    var f := st.frames[|st.frames| - 1];
    FramesCut(m, st.frames);
    if f.sp < |st.stack| {
      SlotsCut(m, st.stack, f.sp + 1);
      assert st.frames[..|st.frames| - 1][..m.k] == st.frames[..m.k];
    }
  }

  /** The activation's own return leaves the same value. */
  lemma LastReturn(m: Move, st: VM)
    requires m.Valid() && m.Covers(st) && |st.frames| == m.k && st.status.Running?
    ensures |st.stack| == m.b ==> CallReturn(st).status.Undefined? && CallReturn(m.Of(st)).status.Undefined?
    ensures |st.stack| > m.b ==>
      Returned(st, st.stack[m.b], CallReturn(st)) && Returned(m.Of(st), st.stack[m.b], CallReturn(m.Of(st)))
  {
    assert st.frames[..m.k] == st.frames;
    assert m.Frames(st.frames) == m.frames;
    var t := m.Of(st);
    if |st.stack| > m.b {
      SlotAt(m, st.stack, m.b);
      ReturnGives(st, st.stack[m.b]);
      ReturnGives(t, st.stack[m.b]);
    } else {
      assert t.stack == m.slots;
    }
  }

  lemma ReturnGives(st: VM, v: Value)
    requires st.status.Running? && |st.stack| > Base(st.frames) && st.stack[Base(st.frames)] == v
    ensures Returned(st, v, CallReturn(st))
  {
    if st.frames != [] {
      var f := st.frames[|st.frames| - 1];
      assert st.stack[..f.sp + 1] == st.stack[..f.sp] + [v];
    }
  }

  // ---------- one operation in both places ----------

  /** `next` and `other` are what an operation makes of `st` and of its copy: copies again, or both undefined, or both
      the activation's return of the same value. */
  ghost predicate Agrees(m: Move, st: VM, next: VM, other: VM)
    requires m.Covers(st)
  {
    || Same(m, next, other)
    || (next.status.Undefined? && other.status.Undefined?)
    || (|st.frames| == m.k && exists v :: BothReturn(m, st, v, next, other))
  }

  /** A copy, and the run is not over. */
  ghost predicate Same(m: Move, next: VM, other: VM) {
    m.Covers(next) && !next.status.Done? && other == m.Of(next)
  }

  ghost predicate BothReturn(m: Move, st: VM, v: Value, next: VM, other: VM)
    requires m.Covers(st)
  {
    Returned(st, v, next) && Returned(m.Of(st), v, other)
  }

  lemma ViaReturn(m: Move, st: VM, valued: VM)
    requires m.Valid() && m.Covers(st) && m.Covers(valued) && valued.status.Running?
    requires valued.frames == st.frames && valued.stack[..m.b] == st.stack[..m.b]
    ensures Agrees(m, st, CallReturn(valued), CallReturn(m.Of(valued)))
  {
    hide CallReturn;
    if |st.frames| > m.k {
      ReturnMoves(m, valued);
    } else {
      LastReturn(m, valued);
      if |valued.stack| > m.b {
        var v := valued.stack[m.b];
        assert st.frames[..m.k] == st.frames && m.Frames(st.frames) == m.frames;
        SameReturn(st, valued, v, CallReturn(valued));
        assert m.Of(valued).stack[..|m.slots|] == m.Of(st).stack[..|m.slots|];
        SameReturn(m.Of(st), m.Of(valued), v, CallReturn(m.Of(valued)));
        assert BothReturn(m, st, v, CallReturn(valued), CallReturn(m.Of(valued)));
      }
    }
  }

  lemma SameReturn(st: VM, valued: VM, v: Value, post: VM)
    requires valued.frames == st.frames && |st.stack| >= Base(st.frames) && |valued.stack| >= Base(st.frames)
    requires valued.stack[..Base(st.frames)] == st.stack[..Base(st.frames)]
    requires Returned(valued, v, post)
    ensures Returned(st, v, post)
  {
  }

  lemma PushMoves(m: Move, st: VM, v: Value)
    requires !st.status.Done? && m.Covers(st)
    ensures Same(m, Push(st, v), Push(m.Of(st), v))
  {
    SlotsGrow(m, st.stack, [v]);
  }

  lemma EvalMoves(m: Move, st: VM, ptr: Value)
    requires !st.status.Done? && m.Covers(st)
    ensures Same(m, CallEval(st, ptr), CallEval(m.Of(st), ptr))
  {
    var frame := Frame(st.closure, |st.stack|, st.argnum, SavedPtr(st.ptr, st.env));
    FramesGrow(m, st.frames, frame);
    assert (st.frames + [frame])[..m.k] == st.frames[..m.k];
  }

  lemma EnterMoves(m: Move, st: VM, id: nat)
    requires m.Holds(st) && st.status.Running? && id < |st.clos| && 0 < st.argnum
    ensures Same(m, EnterInterpreted(st, id), EnterInterpreted(m.Of(st), id))
  {
    hide CountCall, BindArgs, Move.Slots, Move.Frames;
    var base := |st.stack| - st.argnum;
    SlotsLength(m, st.stack);
    SlotsCut(m, st.stack, base + 1);
    SlotsReplaced(m, st.stack, base, [Closure(RETURN_LAST)]);
  }

  lemma ApplyMoves(m: Move, st: VM)
    requires m.Holds(st) && st.status.Running?
    ensures Same(m, CallApply(st), CallApply(m.Of(st)))
  {
    hide EnterInterpreted, Move.Slots, Move.Frames;
    SlotsLength(m, st.stack);
    if 0 < st.argnum {
      var f := st.stack[|st.stack| - st.argnum];
      SlotAt(m, st.stack, |st.stack| - st.argnum);
      if f.Closure? {
        if f.id < |st.clos| && !st.clos[f.id].compiled { EnterMoves(m, st, f.id); }
      } else if f == Run(SetPtr) && st.argnum == 2 {
        SlotsCut(m, st.stack, |st.stack| - 2);
        SlotAt(m, st.stack, |st.stack| - 1);
      }
    }
  }

  lemma PrimMoves(m: Move, st: VM, op: Primitive)
    requires m.Holds(st) && st.status.Running?
    ensures Same(m, OpPrim(st, op), OpPrim(m.Of(st), op))
  {
    hide PrimOf, Move.Slots, Move.Frames;
    SlotsLength(m, st.stack);
    if 0 < st.argnum {
      var base := |st.stack| - st.argnum;
      SlotsCut(m, st.stack, base + 1);
      var r := PrimOf(op, st.stack[base + 1..]);
      if r.Result? { SlotsReplaced(m, st.stack, base, [r.value]); }
    }
  }

  lemma InternSetMoves(m: Move, st: VM, recurse: bool)
    requires m.Holds(st) && st.status.Running?
    ensures Same(m, OpInternSet(st, recurse), OpInternSet(m.Of(st), recurse))
  {
    hide SetVar, SetVarRecurse, Move.Slots, Move.Frames;
    SlotsLength(m, st.stack);
    if st.argnum == 3 {
      SlotsCut(m, st.stack, |st.stack| - 2);
      SlotAt(m, st.stack, |st.stack| - 1);
      SlotAt(m, st.stack, |st.stack| - 2);
    }
  }

  lemma InternIfMoves(m: Move, st: VM)
    requires m.Holds(st) && st.status.Running?
    ensures Same(m, OpInternIf(st), OpInternIf(m.Of(st)))
  {
    hide Move.Slots, Move.Frames;
    SlotsLength(m, st.stack);
    if st.argnum == 4 {
      var top := |st.stack|;
      SlotAt(m, st.stack, top - 1);
      SlotAt(m, st.stack, top - 2);
      SlotAt(m, st.stack, top - 3);
      var chosen := if st.stack[top - 1] == Bool(false) then st.stack[top - 2] else st.stack[top - 3];
      SlotsReplaced(m, st.stack, top - 4, [chosen]);
    }
  }

  lemma CallMoves(m: Move, st: VM, arg: nat)
    requires m.Holds(st) && st.status.Running?
    ensures Same(m, OpDoCall(st, arg), OpDoCall(m.Of(st), arg))
  {
    hide CallApply, Move.Slots, Move.Frames;
    SlotsLength(m, st.stack);
    if arg <= st.argnum {
      var frame := Frame(st.closure, |st.stack| - st.argnum + arg, arg, SavedIp(st.ip + 1));
      FramesGrow(m, st.frames, frame);
      assert (st.frames + [frame])[..m.k] == st.frames[..m.k];
      ApplyMoves(m, st.(frames := st.frames + [frame], argnum := st.argnum - arg));
    }
  }

  lemma TailCallMoves(m: Move, st: VM, arg: nat)
    requires m.Holds(st) && st.status.Running?
    ensures Same(m, OpDoTailCall(st, arg), OpDoTailCall(m.Of(st), arg))
  {
    hide CallApply, Move.Slots, Move.Frames;
    SlotsLength(m, st.stack);
    if arg <= st.argnum {
      var base := |st.stack| - st.argnum;
      SlotsCut(m, st.stack, base + arg);
      SlotsReplaced(m, st.stack, base, st.stack[base + arg..]);
      ApplyMoves(m, st.(stack := st.stack[..base] + st.stack[base + arg..], argnum := st.argnum - arg, ip := 0));
    }
  }

  lemma JumpMoves(m: Move, st: VM, target: nat)
    requires m.Holds(st) && st.status.Running?
    ensures Same(m, OpJumpIfFalse(st, target), OpJumpIfFalse(m.Of(st), target))
  {
    hide Move.Slots, Move.Frames;
    SlotsLength(m, st.stack);
    if 0 < st.argnum {
      SlotAt(m, st.stack, |st.stack| - 1);
      SlotsCut(m, st.stack, |st.stack| - 1);
    }
  }

  lemma ClosureRefMoves(m: Move, st: VM, slot: nat)
    requires m.Holds(st) && st.status.Running?
    ensures Same(m, OpClosureRef(st, slot), OpClosureRef(m.Of(st), slot))
  {
    if st.closure < |st.clos| && slot < |st.clos[st.closure].closed| {
      var node := st.clos[st.closure].closed[slot];
      if node.env < |st.envs| && node.key in st.envs[node.env].vars {
        PushMoves(m, st, st.envs[node.env].vars[node.key]);
      }
    }
  }

  lemma StackRefMoves(m: Move, st: VM, slot: nat)
    requires m.Holds(st) && st.status.Running?
    ensures Same(m, OpStackRef(st, slot), OpStackRef(m.Of(st), slot))
  {
    hide Move.Slots, Move.Frames, Push;
    SlotsLength(m, st.stack);
    if slot < st.argnum {
      SlotAt(m, st.stack, |st.stack| - st.argnum + slot);
      PushMoves(m, st, st.stack[|st.stack| - st.argnum + slot]);
    }
  }

  lemma ReturnLastMoves(m: Move, st: VM)
    requires m.Valid() && m.Holds(st) && st.status.Running?
    ensures Agrees(m, st, OpReturnLast(st), OpReturnLast(m.Of(st)))
  {
    hide CallReturn, Move.Slots, Move.Frames;
    SlotsLength(m, st.stack);
    if 0 < st.argnum {
      var base, v := |st.stack| - st.argnum, st.stack[|st.stack| - 1];
      var valued := st.(stack := st.stack[..base] + [v], argnum := st.argnum - 1);
      SlotAt(m, st.stack, |st.stack| - 1);
      SlotsReplaced(m, st.stack, base, [v]);
      assert valued.stack[..m.b] == st.stack[..m.b];
      ViaReturn(m, st, valued);
    }
  }

  lemma ExecuteMoves(m: Move, st: VM, instr: Instr)
    requires m.Valid() && m.Holds(st) && st.status.Running?
    ensures Agrees(m, st, Execute(st, instr), Execute(m.Of(st), instr))
  {
    hide OpDoCall, OpDoTailCall, OpJumpIfFalse, OpClosureRef, OpStackRef, OpReturnLast, CallReturn, OpPrim, OpInternSet,
      OpInternIf;
    match instr
    case DoCall(arg) => CallMoves(m, st, arg);
    case DoTailCall(arg) => TailCallMoves(m, st, arg);
    case JumpIfFalse(target) => JumpMoves(m, st, target);
    case Jump(target) =>
    case PushConst(v) => PushMoves(m, st, v);
    case ClosureRef(slot) => ClosureRefMoves(m, st, slot);
    case StackRef(slot) => StackRefMoves(m, st, slot);
    case ReturnLast => ReturnLastMoves(m, st);
    case Return => ViaReturn(m, st, st);
    case Prim(op) => PrimMoves(m, st, op);
    case InternDefine => InternSetMoves(m, st, false);
    case InternSet => InternSetMoves(m, st, true);
    case InternIf => InternIfMoves(m, st);
  }

  // ---------- the tree walker in both places ----------

  lemma LambdaMoves(m: Move, st: VM, expr: Value)
    requires m.Valid() && m.Covers(st) && st.status.Running?
    ensures Agrees(m, st, HandleLambda(st, expr), HandleLambda(m.Of(st), expr))
  {
    hide CallReturn;
    if expr.Pair? && (expr.car.Pair? || expr.car.Null?) && expr.cdr.Pair? {
      var made := NewClosure(st, expr.car, expr.cdr);
      PushMoves(m, made, Closure(|st.clos|));
      var valued := Push(made, Closure(|st.clos|));
      assert valued.stack[..m.b] == st.stack[..m.b];
      ViaReturn(m, st, valued);
    }
  }

  lemma DefineMoves(m: Move, st: VM, kind: RunType, expr: Value)
    requires !st.status.Done? && m.Covers(st)
    ensures Same(m, HandleDefine(st, kind, expr), HandleDefine(m.Of(st), kind, expr))
  {
    hide Move.Slots, Move.Frames, Push;
    if expr.Pair? {
      var f := Closure(if kind == SetBang then INTERN_SET else INTERN_DEFINE);
      var st1 := Push(st, f);
      PushMoves(m, st, f);
      if expr.car.Sym? {
        PushMoves(m, st1, expr.car);
      } else if expr.car.Pair? {
        var st2 := NewClosure(st1, expr.car.cdr, expr.cdr);
        PushMoves(m, st2, expr.car.car);
        PushMoves(m, Push(st2, expr.car.car), Closure(|st.clos|));
        PushKeepsTables(st, f);
      }
    }
  }

  lemma PushKeepsTables(st: VM, v: Value)
    ensures Push(st, v) == st.(stack := Push(st, v).stack, argnum := st.argnum + 1)
  {
  }

  lemma IfMoves(m: Move, st: VM, expr: Value)
    requires !st.status.Done? && m.Covers(st)
    ensures Same(m, HandleIf(st, expr), HandleIf(m.Of(st), expr))
  {
    hide Push, CallEval;
    if expr.Pair? && expr.cdr.Pair? && expr.cdr.cdr.Pair? {
      var s0 := Push(st, Run(SetPtr));
      PushMoves(m, st, Run(SetPtr));
      var s1 := CallEval(s0.(ptr := Null), Null);
      EvalMoves(m, s0.(ptr := Null), Null);
      var s2 := Push(s1, Closure(INTERN_IF));
      PushMoves(m, s1, Closure(INTERN_IF));
      var s3 := Push(s2, expr.cdr.car);
      PushMoves(m, s2, expr.cdr.car);
      PushMoves(m, s3, expr.cdr.cdr.car);
      EvalMoves(m, Push(s3, expr.cdr.cdr.car), expr.car);
    }
  }

  lemma TwoPushesMove(m: Move, st: VM, f: Value, v: Value)
    requires !st.status.Done? && m.Covers(st)
    ensures Same(m, Push(Push(st, f), v), Push(Push(m.Of(st), f), v))
  {
    hide Push;
    PushMoves(m, st, f);
    PushMoves(m, Push(st, f), v);
  }

  lemma FormMoves(m: Move, st: VM, kind: RunType, expr: Value)
    requires m.Valid() && m.Covers(st) && st.status.Running?
    ensures Agrees(m, st, HandleSpecialForm(st, kind, expr), HandleSpecialForm(m.Of(st), kind, expr))
  {
    hide HandleLambda, HandleDefine, HandleIf, Push;
    match kind
    case Lambda => LambdaMoves(m, st, expr);
    case Define => DefineMoves(m, st, kind, expr);
    case SetBang => DefineMoves(m, st, kind, expr);
    case DefineSyntax => DefineMoves(m, st, kind, expr);
    case If => IfMoves(m, st, expr);
    case Begin => PushMoves(m, st, Closure(RETURN_LAST));
    case Quote => TwoPushesMove(m, st, Closure(RETURN_LAST), if expr.Pair? then expr.car else Null);
    case SyntaxRules =>
      if expr.Pair? { TwoPushesMove(m, st, Closure(RETURN_LAST), Rules(expr.car, expr.cdr)); }
    case _ =>
  }

  lemma MacroMoves(m: Move, st: VM, rules: Value, form: Value)
    requires !st.status.Done? && m.Covers(st) && rules.Rules?
    ensures Same(m, HandleMacro(st, rules, form), HandleMacro(m.Of(st), rules, form))
  {
    hide SyntaxRules.ExpandRules, Push, CallEval;
    match SyntaxRules.ExpandRules(rules.keywords, rules.patterns, form)
    case Expanded(value) =>
      TwoPushesMove(m, st, Closure(RETURN_LAST), Null);
      var st1 := Push(Push(st, Closure(RETURN_LAST)), Null).(ptr := Null);
      TwoPushesMove(m, st1, Closure(RETURN_LAST), Null);
      var st2 := Push(Push(st1, Closure(RETURN_LAST)), Null);
      EvalMoves(m, st2, value);
      PushMoves(m, CallEval(st2, value), Closure(RETURN_LAST));
    case _ =>
  }

  lemma WalkMoves(m: Move, st: VM)
    requires m.Valid() && m.Holds(st) && st.status.Running?
    ensures Agrees(m, st, StepInterpreted(st), StepInterpreted(m.Of(st)))
  {
    hide CallApply, CallReturn, HandleSpecialForm, HandleMacro, Push, CallEval, Lookup, Move.Slots, Move.Frames;
    match st.ptr
    case Pair(head, rest) =>
      var st1 := st.(ptr := rest);
      if head.Pair? {
        EvalMoves(m, st1, head);
      } else if !head.Sym? {
        PushMoves(m, st1, head);
      } else if Lookup(st.envs, st.env, head).Some? {
        var v := Lookup(st.envs, st.env, head).value;
        PushMoves(m, st1, v);
        if IsSpecialForm(v) { FormMoves(m, st1, v.kind, rest); SamePlace(m, st, st1); }
        if v.Rules? { MacroMoves(m, st1, v, st.ptr); }
      }
    case Null => ApplyMoves(m, st);
    case atom =>
      var v := if atom.Sym? then Lookup(st.envs, st.env, atom) else Some(atom);
      if v.Some? {
        var valued := st.(stack := st.stack + [v.value]);
        SlotsGrow(m, st.stack, [v.value]);
        assert valued.stack[..m.b] == st.stack[..m.b];
        ViaReturn(m, st, valued);
      }
  }

  /** Agreement does not look at where the walker is. */
  lemma SamePlace(m: Move, st: VM, st1: VM)
    requires m.Covers(st) && m.Covers(st1) && st1.frames == st.frames && st1.stack == st.stack
    ensures forall next, other :: Agrees(m, st1, next, other) ==> Agrees(m, st, next, other)
  {
    forall next, other, v | BothReturn(m, st1, v, next, other) ensures BothReturn(m, st, v, next, other) {}
  }

  lemma StepMoves(m: Move, st: VM)
    requires m.Valid() && m.Holds(st) && st.status.Running?
    ensures Agrees(m, st, Step(st), Step(m.Of(st)))
  {
    hide StepInterpreted, Execute;
    if st.mode == Mode.Compiled {
      if st.closure < |st.clos| && st.ip < |st.clos[st.closure].code| {
        ExecuteMoves(m, st, st.clos[st.closure].code[st.ip]);
      }
    } else {
      WalkMoves(m, st);
    }
  }

  // ---------- runs in both places ----------

  /** The activation on top returns `v` after `n` steps. */
  ghost predicate GivesIn(st: VM, v: Value, n: nat) {
    Above(st, n, |st.frames|) && Returned(st, v, After(st, n))
  }

  ghost predicate Gives(st: VM, v: Value) { exists n: nat :: GivesIn(st, v, n) }

  ghost predicate BreaksIn(st: VM, n: nat) {
    Above(st, n, |st.frames|) && After(st, n).status.Failed?
  }

  ghost predicate Breaks(st: VM) { exists n: nat :: BreaksIn(st, n) }

  /** It neither returns nor stops. */
  ghost predicate Lasts(st: VM) { forall n: nat :: Above(st, n, |st.frames|) }

  lemma {:induction false} AboveJoined(st: VM, n: nat, k: nat, d: nat)
    requires Above(st, n, d) && Above(After(st, n), k, d)
    ensures Above(st, n + k, d)
    decreases n
  {
    hide Step;
    if n > 0 { AboveJoined(Step(st), n - 1, k, d); }
  }

  lemma {:induction false} RunsIsAbove(b: nat, st: VM, n: nat, d: nat, post: VM)
    requires Runs(b, st, n, d, post)
    ensures Above(st, n, d) && After(st, n) == post
    decreases n
  {
    hide Step;
    if n > 0 { RunsIsAbove(b, Step(st), n - 1, d, post); }
  }

  lemma {:induction false} LowerAbove(st: VM, n: nat, d: nat, e: nat)
    requires Above(st, n, d) && e <= d
    ensures Above(st, n, e)
    decreases n
  {
    hide Step;
    if n > 0 { LowerAbove(Step(st), n - 1, d, e); }
  }

  lemma StepFirst(st: VM, n: nat)
    requires n > 0
    ensures After(st, n) == After(Step(st), n - 1)
    ensures forall d :: Above(st, n, d) <==> st.status.Running? && |st.frames| >= d && Above(Step(st), n - 1, d)
  {
    hide Step;
  }

  /** A running activation, and another place for it. */
  ghost predicate Movable(m: Move, st: VM) {
    && m.Valid() && st.status.Running? && Nested(st)
    && m.k == |st.frames| && m.b == Base(st.frames) && |st.stack| >= m.b
  }

  lemma {:induction false} NestedHolds(m: Move, st: VM)
    requires Nested(st) && m.k <= |st.frames| && m.b == Base(st.frames[..m.k])
    ensures m.Holds(st)
  {
    BaseGrows(st.frames, m.k);
    forall i | m.k <= i < |st.frames| ensures m.b <= st.frames[i].sp {
      BaseGrows(st.frames, i + 1);
      BaseGrows(st.frames[..i + 1], m.k);
      assert st.frames[..i + 1][..m.k] == st.frames[..m.k];
    }
  }

  /** A step that stays at or above the activation is the same step in the other place. */
  lemma StepStays(m: Move, st: VM)
    requires m.Valid() && m.Holds(st) && Nested(st) && st.status.Running?
    requires Step(st).status.Running? && |Step(st).frames| >= m.k
    ensures m.Holds(Step(st)) && Nested(Step(st)) && Step(m.Of(st)) == m.Of(Step(st))
    ensures Step(st).frames[..m.k] == st.frames[..m.k] && Step(st).stack[..m.b] == st.stack[..m.b]
  {
    hide Step;
    StepMoves(m, st);
    StepDiscipline(st);
    BaseGrows(st.frames, m.k);
    if |st.frames| == m.k {
      assert st.frames[..m.k] == st.frames;
    }
    if m.k > 0 { StepSeenFromBelow(st, m.k); }
    assert Step(st).frames[..m.k] == st.frames[..m.k];
    NestedHolds(m, Step(st));
  }

  lemma {:induction false} RunMoves(m: Move, st: VM, n: nat)
    requires m.Valid() && m.Holds(st) && Nested(st) && Above(st, n + 1, m.k)
    ensures var now := After(st, n);
      && m.Holds(now) && Nested(now) && After(m.Of(st), n) == m.Of(now)
      && now.frames[..m.k] == st.frames[..m.k] && now.stack[..m.b] == st.stack[..m.b]
    ensures Above(m.Of(st), n + 1, |m.frames|)
    decreases n
  {
    hide Step;
    OneMore(st, n, m.k);
    if n > 0 {
      StepStays(m, st);
      RunMoves(m, Step(st), n - 1);
    }
  }

  lemma OneMore(st: VM, n: nat, d: nat)
    requires Above(st, n + 1, d)
    ensures st.status.Running? && |st.frames| >= d && (n > 0 ==> Step(st).status.Running? && |Step(st).frames| >= d)
  {
    hide Step;
    if n > 0 { assert Above(Step(st), n, d); }
  }

  lemma LastStep(st: VM, n: nat)
    requires n > 0
    ensures After(st, n) == Step(After(st, n - 1))
  {
    hide Step;
    AfterSum(st, n - 1, 1);
    assert After(Step(After(st, n - 1)), 0) == Step(After(st, n - 1));
  }

  lemma OneReturn(st: VM, s: VM, v: Value, w: Value, post: VM)
    requires Returned(st, v, post) && Returned(s, w, post) && |s.frames| == |st.frames|
    requires s.frames == st.frames && Base(st.frames) <= |st.stack| && Base(st.frames) <= |s.stack|
    ensures v == w
  {
    if st.frames != [] {
      var sp := Base(st.frames);
      assert (st.stack[..sp] + [v])[sp] == (s.stack[..sp] + [w])[sp];
    }
  }

  lemma GivesMoves(m: Move, st: VM, v: Value, n: nat)
    requires Movable(m, st) && GivesIn(st, v, n)
    ensures GivesIn(m.Of(st), v, n)
  {
    hide Step, After, Above;
    assert st.frames[..m.k] == st.frames;
    NestedHolds(m, st);
    NotYet(st, v, n);
    RunMoves(m, st, n - 1);
    var s, post := After(st, n - 1), After(st, n);
    LastStep(st, n);
    LastStep(m.Of(st), n);
    var t, other := m.Of(s), Step(m.Of(s));
    OneAbove(st, n - 1, m.k);
    StepMoves(m, s);
    ReturnsBelow(m, st, v, post);
    assert s.frames[..m.k] == s.frames && m.Frames(s.frames) == m.frames;
    var w :| BothReturn(m, s, w, post, other);
    OneReturn(st, s, v, w, post);
    assert m.Frames(st.frames) == m.frames;
    assert t.stack[..|m.slots|] == m.Of(st).stack[..|m.slots|];
    SameReturn(m.Of(st), t, v, other);
  }

  /** A return leaves the place that the activation covers, or ends the run. */
  lemma ReturnsBelow(m: Move, st: VM, v: Value, post: VM)
    requires Movable(m, st) && Returned(st, v, post)
    ensures !Same(m, post, post) && forall other :: !Same(m, post, other)
    ensures !post.status.Undefined?
  {
  }

  lemma NotYet(st: VM, v: Value, n: nat)
    requires st.status.Running? && Returned(st, v, After(st, n))
    ensures n > 0
  {
    hide Step;
    assert st.frames != [] ==> |st.frames[..|st.frames| - 1]| < |st.frames|;
  }

  lemma {:induction false} OneAbove(st: VM, n: nat, d: nat)
    requires Above(st, n + 1, d)
    ensures After(st, n).status.Running? && |After(st, n).frames| >= d
    decreases n
  {
    hide Step;
    if n > 0 { OneAbove(Step(st), n - 1, d); }
  }

  lemma BreaksMoves(m: Move, st: VM, n: nat)
    requires Movable(m, st) && BreaksIn(st, n)
    ensures BreaksIn(m.Of(st), n)
  {
    hide Step, Above;
    assert st.frames[..m.k] == st.frames;
    NestedHolds(m, st);
    assert n > 0;
    hide After;
    RunMoves(m, st, n - 1);
    var s := After(st, n - 1);
    LastStep(st, n);
    LastStep(m.Of(st), n);
    OneAbove(st, n - 1, m.k);
    StepMoves(m, s);
    assert m.Frames(st.frames) == m.frames;
    forall v ensures !Returned(s, v, After(st, n)) {}
  }

  lemma LastsMoves(m: Move, st: VM)
    requires Movable(m, st) && Lasts(st)
    ensures Lasts(m.Of(st))
  {
    hide Step, Above;
    assert st.frames[..m.k] == st.frames && m.Frames(st.frames) == m.frames;
    NestedHolds(m, st);
    forall n: nat ensures Above(m.Of(st), n, |m.Of(st).frames|) {
      RunMoves(m, st, n);
      FewerAbove(m.Of(st), n, |m.frames|);
    }
  }

  lemma {:induction false} FewerAbove(st: VM, n: nat, d: nat)
    requires Above(st, n + 1, d)
    ensures Above(st, n, d)
    decreases n
  {
    hide Step;
    if n > 0 { FewerAbove(Step(st), n - 1, d); }
  }

  /** Back to where the activation was. */
  lemma BackMoves(m: Move, st: VM) returns (back: Move)
    requires Movable(m, st)
    ensures m.Holds(st) && Movable(back, m.Of(st)) && back.Of(m.Of(st)) == st
  {
    assert st.frames[..m.k] == st.frames && m.Frames(st.frames) == m.frames;
    NestedHolds(m, st);
    back := Move(|m.frames|, |m.slots|, st.frames, st.stack[..m.b]);
    assert m.Of(st).stack[|m.slots|..] == st.stack[m.b..];
    assert back.Frames(m.frames) == st.frames;
  }

  /** An activation returns, fails and runs for ever independently of what lies below it: of the callers' frames, their
      slots, and how many there are. For every program, in both modes. */
  lemma ContextFree(m: Move, st: VM)
    requires Movable(m, st)
    ensures m.Holds(st)
    ensures forall v :: Gives(st, v) <==> Gives(m.Of(st), v)
    ensures Breaks(st) <==> Breaks(m.Of(st))
    ensures Lasts(st) <==> Lasts(m.Of(st))
  {
    hide Step, After, Above, Lasts, GivesIn, BreaksIn, Movable, Returned;
    var back := BackMoves(m, st);
    forall v ensures Gives(st, v) <==> Gives(m.Of(st), v) {
      if n: nat :| GivesIn(st, v, n) { GivesMoves(m, st, v, n); }
      if n: nat :| GivesIn(m.Of(st), v, n) { GivesMoves(back, m.Of(st), v, n); }
    }
    if n: nat :| BreaksIn(st, n) { BreaksMoves(m, st, n); }
    if n: nat :| BreaksIn(m.Of(st), n) { BreaksMoves(back, m.Of(st), n); }
    if Lasts(st) { LastsMoves(m, st); }
    if Lasts(m.Of(st)) { LastsMoves(back, m.Of(st)); }
  }
}
