/** Finite runs of the machine, and how an activation can end. */
module Activations {
  import opened Values
  import opened EnvStore
  import opened Compiler
  import opened Machine
  import opened Semantics
  import opened WellFormed
  import opened FrameDiscipline

  /** `n` steps lead from `st` to `post`. Until then the machine runs with at least `d` frames, and
      whenever it has exactly `d` the activation holds at most `b` slots. */
  ghost predicate Runs(b: nat, st: VM, n: nat, d: nat, post: VM)
    decreases n
  {
    if n == 0 then post == st
    else
      && st.status.Running? && |st.frames| >= d
      && (|st.frames| == d ==> st.argnum <= b)
      && Runs(b, Step(st), n - 1, d, post)
  }

  lemma {:induction false} RunsThen(b: nat, st: VM, m: nat, d: nat, mid: VM, n: nat, post: VM)
    requires Runs(b, st, m, d, mid) && Runs(b, mid, n, d, post)
    ensures Runs(b, st, m + n, d, post)
    decreases m
  {
    hide Step;
    if m > 0 { RunsThen(b, Step(st), m - 1, d, mid, n, post); }
  }

  /** A run of a callee, seen from the caller. */
  lemma {:induction false} RunsBelow(b: nat, st: VM, n: nat, d: nat, e: nat, post: VM)
    requires Runs(b, st, n, d, post) && e <= d
    ensures Runs(b, st, n, e, post)
    decreases n
  {
    hide Step;
    if n > 0 { RunsBelow(b, Step(st), n - 1, d, e, post); }
  }

  lemma OneStep(b: nat, st: VM, d: nat, post: VM)
    requires st.status.Running? && |st.frames| >= d && st.argnum <= b && post == Step(st)
    ensures Runs(b, st, 1, d, post)
  {
    hide Step;
    assert Runs(b, post, 0, d, post);
  }

  /** The activation on top of `st` has returned `v`: its caller resumes with `v` in the result slot,
      everything below unchanged. With no caller the run is over. */
  ghost predicate Returned(st: VM, v: Value, post: VM) {
    if st.frames == [] then post.status == Done(v)
    else
      var f := st.frames[|st.frames| - 1];
      && post.status.Running?
      && f.sp <= |st.stack|
      && post.stack == st.stack[..f.sp] + [v]
      && post.frames == st.frames[..|st.frames| - 1]
      && Resumed(f, post)
  }

  /** An error, or at least `fuel` steps with no return and no end in sight. */
  ghost predicate Stops(b: nat, st: VM, d: nat, error: bool, fuel: nat, n: nat, post: VM) {
    && Runs(b, st, n, d, post)
    && if error then post.status.Failed?
       else n >= fuel && post.status.Running? && |post.frames| >= d && (|post.frames| == d ==> post.argnum <= b)
  }

  lemma StopsLater(
    b: nat, st: VM, m: nat, d: nat, mid: VM, e: nat, error: bool, fuel: nat, n: nat, post: VM, total: nat)
    requires Runs(b, st, m, d, mid) && d <= e && Stops(b, mid, e, error, fuel, n, post) && total <= m + fuel
    ensures Stops(b, st, d, error, total, m + n, post)
  {
    RunsBelow(b, mid, n, e, d, post);
    RunsThen(b, st, m, d, mid, n, post);
  }

  ghost predicate StayCompiled(clos: seq<Clos>, later: seq<Clos>) {
    |clos| <= |later| && forall i | 0 <= i < |clos| && clos[i].compiled :: later[i].compiled
  }

  /** The tables after a run: still the program's, none of the environments `envs` has changed, and what
      was compiled still is. */
  ghost predicate KeepsTables(p: Program, envs: seq<EnvFrame>, clos: seq<Clos>, post: VM) {
    Conforms(p, post) && Extends(envs, post.envs) && StayCompiled(clos, post.clos)
  }

  /** How the activation on top of `st` ends, for each outcome of its meaning; its callers' environments
      are among `envs`. */
  ghost predicate Ends(
    p: Program, b: nat, envs: seq<EnvFrame>, st: VM, out: Outcome<Value>, fuel: nat, n: nat, post: VM) {
    match out
    case Val(v) =>
      && Runs(b, st, n, |st.frames|, post)
      && Returned(st, v, post) && KeepsTables(p, envs, st.clos, post) && Plain(p, v)
    case Error => Stops(b, st, |st.frames|, true, fuel, n, post)
    case Timeout => Stops(b, st, |st.frames|, false, fuel, n, post)
    case Unclaimed => true
  }

  /** Same activation, with `vs` pushed. */
  ghost predicate Advanced(st: VM, vs: seq<Value>, post: VM) {
    && post.status.Running?
    && post.stack == st.stack + vs
    && post.argnum == st.argnum + |vs|
    && post.frames == st.frames
    && post.closure == st.closure
    && post.mode == st.mode
    && (st.mode == Interpreted ==> post.env == st.env)
  }

  /** How an activation that evaluates operands goes on. */
  ghost predicate GoesOn(p: Program, b: nat, st: VM, out: Outcome<seq<Value>>, fuel: nat, n: nat, post: VM) {
    match out
    case Val(vs) =>
      && Runs(b, st, n, |st.frames|, post)
      && Advanced(st, vs, post) && KeepsTables(p, st.envs, st.clos, post) && AllPlain(p, vs)
    case Error => Stops(b, st, |st.frames|, true, fuel, n, post)
    case Timeout => Stops(b, st, |st.frames|, false, fuel, n, post)
    case Unclaimed => true
  }

  lemma ExtendsTwice(a: seq<EnvFrame>, b: seq<EnvFrame>, c: seq<EnvFrame>)
    requires Extends(a, b) && Extends(b, c)
    ensures Extends(a, c)
  {
    forall i | 0 <= i < |a| ensures c[i] == a[i] { assert b[i] == a[i]; }
  }

  /** An activation that first runs to `mid`, still in the activation, ends as it does from `mid`. */
  lemma EndsLater(
    p: Program, b: nat, envs: seq<EnvFrame>, st: VM, m: nat, more: seq<EnvFrame>, mid: VM,
    out: Outcome<Value>, fuel: nat, n: nat, post: VM, total: nat)
    requires Runs(b, st, m, |st.frames|, mid) && mid.frames == st.frames && Extends(envs, more)
    requires StayCompiled(st.clos, mid.clos)
    requires |st.stack| >= Base(st.frames) && |mid.stack| >= Base(st.frames)
    requires mid.stack[..Base(st.frames)] == st.stack[..Base(st.frames)]
    requires Ends(p, b, more, mid, out, fuel, n, post) && total <= m + fuel
    ensures Ends(p, b, envs, st, out, total, m + n, post)
  {
    hide Runs;
    match out
    case Val(v) =>
      RunsThen(b, st, m, |st.frames|, mid, n, post);
      ExtendsTwice(envs, more, post.envs);
    case Error => StopsLater(b, st, m, |st.frames|, mid, |st.frames|, true, fuel, n, post, total);
    case Timeout => StopsLater(b, st, m, |st.frames|, mid, |st.frames|, false, fuel, n, post, total);
    case Unclaimed =>
  }

  // ---------- single instructions ----------

  ghost predicate AtInstr(st: VM, instr: Instr) {
    && st.status.Running? && st.mode == Mode.Compiled && st.closure < |st.clos|
    && st.ip < |st.clos[st.closure].code| && st.clos[st.closure].code[st.ip] == instr
  }

  lemma StepConst(st: VM, v: Value)
    requires AtInstr(st, PushConst(v))
    ensures Step(st) == st.(stack := st.stack + [v], argnum := st.argnum + 1, ip := st.ip + 1)
  {
  }

  lemma StepStackRef(st: VM, slot: nat)
    requires AtInstr(st, StackRef(slot)) && slot < st.argnum <= |st.stack|
    ensures Step(st) == st.(stack := st.stack + [st.stack[|st.stack| - st.argnum + slot]],
                            argnum := st.argnum + 1, ip := st.ip + 1)
  {
  }

  lemma StepClosureRef(st: VM, slot: nat, node: NodeRef)
    requires AtInstr(st, ClosureRef(slot))
    requires slot < |st.clos[st.closure].closed| && st.clos[st.closure].closed[slot] == node
    requires node.env < |st.envs| && node.key in st.envs[node.env].vars
    ensures Step(st) == st.(stack := st.stack + [st.envs[node.env].vars[node.key]],
                            argnum := st.argnum + 1, ip := st.ip + 1)
  {
  }

  lemma StepJump(st: VM, target: nat)
    requires AtInstr(st, Jump(target))
    ensures Step(st) == st.(ip := target)
  {
  }

  lemma StepJumpIfFalse(st: VM, target: nat, below: VM, test: Value)
    requires AtInstr(st, JumpIfFalse(target))
    requires st.stack == below.stack + [test] && st.argnum == below.argnum + 1
    ensures Step(st) == st.(stack := below.stack, argnum := below.argnum,
                            ip := if test == Bool(false) then target else st.ip + 1)
  {
  }

  lemma StepDoCall(st: VM, arg: nat)
    requires AtInstr(st, DoCall(arg)) && arg <= st.argnum <= |st.stack|
    ensures Step(st) ==
      CallApply(st.(frames := st.frames + [Frame(st.closure, |st.stack| - st.argnum + arg, arg, SavedIp(st.ip + 1))],
                    argnum := st.argnum - arg))
  {
    hide CallApply;
  }

  lemma StepDoTailCall(st: VM, arg: nat)
    requires AtInstr(st, DoTailCall(arg)) && arg <= st.argnum <= |st.stack|
    ensures Step(st) ==
      CallApply(st.(stack := st.stack[..|st.stack| - st.argnum] + st.stack[|st.stack| - st.argnum + arg..],
                    argnum := st.argnum - arg, ip := 0))
  {
    hide CallApply;
  }

  /** A return with its value on top, whatever lies between it and the base. */
  lemma StepReturnLast(st: VM, v: Value)
    requires AtInstr(st, ReturnLast) && |st.stack| == Base(st.frames) + st.argnum
    requires st.argnum > 0 && st.stack[|st.stack| - 1] == v
    ensures Returned(st, v, Step(st)) && Step(st).clos == st.clos && Step(st).envs == st.envs
  {
    var base := |st.stack| - st.argnum;
    var valued := st.(stack := st.stack[..base] + [v], argnum := st.argnum - 1);
    assert Step(st) == CallReturn(valued);
    assert valued.stack[..base + 1] == valued.stack;
  }

  /** A built-in's second instruction: the result is already in its slot. */
  lemma StepReturn(st: VM, v: Value)
    requires AtInstr(st, Return) && |st.stack| > Base(st.frames) && st.stack[Base(st.frames)] == v
    ensures Returned(st, v, Step(st)) && Step(st).clos == st.clos && Step(st).envs == st.envs
  {
    assert Step(st) == CallReturn(st);
    assert st.stack[..Base(st.frames) + 1] == st.stack[..Base(st.frames)] + [v];
  }
}
