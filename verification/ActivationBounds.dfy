/** What an activation costs: slots, frames and steps. */
module ActivationBounds {
  import opened Values
  import opened EnvStore
  import opened Compiler
  import opened Machine
  import opened Semantics
  import opened WellFormed
  import opened FrameDiscipline
  import opened CodeShape
  import opened Activations
  import opened Peaks
  import opened InterpreterProof
  import opened Transparency

  // ---------- proper tail calls ----------

  /** A tail call moves the callee and all its arguments, intact and in order, down to the base. It pushes no
      frame and leaves every slot below the base alone. */
  lemma TailCallInPlace(st: VM, arg: nat)
    requires Nested(st) && AtInstr(st, DoTailCall(arg)) && arg < st.argnum
    ensures var operands := st.stack[Base(st.frames) + arg..]; var next := Step(st);
      && (next.status.Running? ==>
            && next.frames == st.frames && |next.stack| >= Base(st.frames)
            && next.stack[..Base(st.frames)] == st.stack[..Base(st.frames)])
      && (operands[0].Closure? && operands[0].id < |st.clos| && st.clos[operands[0].id].compiled ==>
            && next.status.Running? && next.closure == operands[0].id && next.ip == 0
            && next.argnum == |operands| && next.stack == st.stack[..Base(st.frames)] + operands)
  {
    var base := Base(st.frames);
    var moved :=
      st.(stack := st.stack[..base] + st.stack[base + arg..], argnum := st.argnum - arg, ip := 0);
    StepDoTailCall(st, arg);
    ApplyKeepsBelow(moved);
    assert moved.stack[..base] == st.stack[..base];
    assert moved.stack[base] == st.stack[base + arg..][0];
  }

  lemma {:induction false} AboveAt(st: VM, n: nat, d: nat, k: nat)
    requires Above(st, n, d) && k < n
    ensures Above(st, k, d) && After(st, k).status.Running? && |After(st, k).frames| >= d
    decreases n
  {
    hide Step;
    if k > 0 { AboveAt(Step(st), n - 1, d, k - 1); }
  }

  lemma {:induction false} RunsFits(b: nat, st: VM, n: nat, d: nat, post: VM, k: nat)
    requires Runs(b, st, n, d, post) && k < n
    ensures |After(st, k).frames| == d ==> After(st, k).argnum <= b
    decreases n
  {
    hide Step;
    if k > 0 { RunsFits(b, Step(st), n - 1, d, post, k - 1); }
  }

  /** As long as an application has not ended, and however many tail calls it makes, its callers' frames and slots
      stay as they were; and whenever no callee of its own is running, its activation holds at most `b` slots above
      the same base, where `b` bounds the static depth of every body. */
  lemma ApplicationSpace(p: Program, b: nat, st: VM, f: Value, args: seq<Value>, k: nat)
    requires WfProgram(p) && Bounded(p, b) && ApplyReady(p, b, st, f, args) && Claimed(p, f, args) && Nested(st)
    requires Above(CallApply(st), k + 1, |st.frames|)
    ensures var now := After(CallApply(st), k); var d := |st.frames|;
      && |now.frames| >= d && now.frames[..d] == st.frames
      && |now.stack| >= Base(st.frames) && now.stack[..Base(st.frames)] == st.stack[..Base(st.frames)]
      && (|now.frames| == d ==> now.argnum <= b && |now.stack| <= Base(st.frames) + b)
  {
    hide CallApply, Apply, Runs, Step;
    var start, d := CallApply(st), |st.frames|;
    var now := After(start, k);
    ApplyKeepsBelow(st);
    ApplyDiscipline(st);
    AboveAt(start, k + 1, d, k);
    RunsNest(start, k);
    if d > 0 { CallsBalance(start, k, d); }
    assert now.frames[..d] == st.frames && start.frames == st.frames;
    var n, post := MeaningEnds(p, b, st, f, args, k + 1);
    RunsBeyond(b, start, n, d, post, k, Apply(p, f, args, k + 1), p, st.envs);
    RunsFits(b, start, n, d, post, k);
    if |now.frames| == d { assert now.frames == st.frames; }
  }

  /** A run that ends the application is longer than any during which it goes on. */
  lemma RunsBeyond(
    b: nat, start: VM, n: nat, d: nat, post: VM, k: nat, out: Outcome<Value>, p: Program, envs: seq<EnvFrame>)
    requires d == |start.frames| && Above(start, k + 1, d) && !out.Unclaimed?
    requires Ends(p, b, envs, start, out, k + 1, n, post)
    ensures Runs(b, start, n, d, post) && k < n
  {
    hide Runs, Step;
    if n <= k {
      AboveAt(start, k + 1, d, n);
      RunsPasses(b, start, n, d, post, n);
      if out.Val? { ReturnIsOver(start, out.value, post); }
    }
  }

  // ---------- steps ----------

  /** Of the first `n` states, how many have exactly `d` frames. */
  function OwnSteps(st: VM, n: nat, d: nat): nat
    decreases n
  {
    if n == 0 then 0 else (if |st.frames| == d then 1 else 0) + OwnSteps(Step(st), n - 1, d)
  }

  /** About to return or to tail call. */
  predicate Leaves(st: VM) {
    && st.closure < |st.clos| && st.ip < |st.clos[st.closure].code|
    && var instr := st.clos[st.closure].code[st.ip];
      instr.DoTailCall? || instr.ReturnLast? || instr.Return?
  }

  /** `n` steps are taken with at least `d` frames, and the activation that has `d` neither returns nor tail calls. */
  ghost predicate Staying(st: VM, n: nat, d: nat)
    decreases n
  {
    && st.status.Running? && |st.frames| >= d
    && (n > 0 ==> !(|st.frames| == d && Leaves(st)) && Staying(Step(st), n - 1, d))
  }

  /** The activation that has `d` frames below it executes closure `c`, now or when its callee returns. */
  predicate InActivation(st: VM, d: nat, c: nat) {
    && |st.frames| >= d
    && if |st.frames| == d then st.mode == Mode.Compiled && st.closure == c
       else st.frames[d].saved.SavedIp? && st.frames[d].closure == c
  }

  /** Where it is in its code. */
  function Position(st: VM, d: nat, c: nat): nat
    requires InActivation(st, d, c)
  {
    if |st.frames| == d then st.ip else st.frames[d].saved.ip
  }

  lemma CallPosition(st: VM, arg: nat, c: nat)
    requires Nested(st) && InActivation(st, |st.frames|, c) && AtInstr(st, DoCall(arg)) && Step(st).status.Running?
    ensures InActivation(Step(st), |st.frames|, c) && Position(Step(st), |st.frames|, c) == st.ip + 1
  {
    hide CallApply;
    if arg <= st.argnum {
      var frame := Frame(st.closure, |st.stack| - st.argnum + arg, arg, SavedIp(st.ip + 1));
      var called := st.(frames := st.frames + [frame], argnum := st.argnum - arg);
      StepDoCall(st, arg);
      ApplyKeepsBelow(called);
    }
  }

  lemma PositionMoves(st: VM, d: nat, c: nat)
    requires Nested(st) && ControlInside(st) && InActivation(st, d, c) && Staying(st, 1, d)
    ensures var next := Step(st);
      && InActivation(next, d, c)
      && Position(next, d, c) >= Position(st, d, c) + if |st.frames| == d then 1 else 0
  {
    if |st.frames| == d {
      var instr := st.clos[st.closure].code[st.ip];
      if instr.DoCall? { CallPosition(st, instr.arg, c); } else { OwnStepForward(st, instr); }
    } else {
      hide Step;
      StepSeenFromBelow(st, d + 1);
      var next := Step(st);
      if |next.frames| > d { assert next.frames[d] == next.frames[..d + 1][d]; }
    }
  }

  /** Between entry and the return or tail call that ends it, an activation takes fewer steps of its own than its
      closure has instructions: it runs in a straight line, however often its callees call back. */
  lemma {:induction false} StraightLine(st: VM, n: nat, d: nat, c: nat)
    requires Nested(st) && ControlInside(st) && InActivation(st, d, c) && Staying(st, n, d)
    ensures var now := After(st, n);
      && InActivation(now, d, c) && c < |now.clos|
      && Position(st, d, c) + OwnSteps(st, n, d) <= Position(now, d, c) < |now.clos[c].code|
    decreases n
  {
    hide Step;
    if n > 0 {
      assert Staying(st, 1, d);
      PositionMoves(st, d, c);
      StepDiscipline(st);
      ControlStaysInside(st);
      StraightLine(Step(st), n - 1, d, c);
    }
  }
}
