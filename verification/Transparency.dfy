/** The main results: both engines give every application its meaning, so they agree. */
module Transparency {
  import opened Values
  import opened EnvStore
  import opened Compiler
  import opened Machine
  import opened Semantics
  import opened WellFormed
  import opened FrameDiscipline
  import opened Activations
  import opened Peaks
  import opened InterpreterProof
  import CompiledProof

  // ---------- built-ins ----------

  lemma PrimKeepsPlain(p: Program, op: Primitive, args: seq<Value>)
    requires AllPlain(p, args)
    ensures PrimOf(op, args).Result? ==> Plain(p, PrimOf(op, args).value)
  {
  }

  lemma StepPrim(st: VM, op: Primitive, below: seq<Value>, f: Value, args: seq<Value>)
    requires AtInstr(st, Prim(op)) && st.stack == below + [f] + args && st.argnum == 1 + |args|
    ensures match PrimOf(op, args)
            case Result(v) => Step(st) == st.(stack := below + [v], argnum := 1, ip := st.ip + 1)
            case Untouched => Step(st) == st.(ip := st.ip + 1)
            case PrimError => Step(st).status.Failed?
            case PrimUndefined => true
  {
    assert st.stack[|below| + 1..] == args;
    assert st.stack[..|below|] == below;
  }

  lemma BuiltinCode(p: Program, st: VM, id: nat) returns (op: Primitive)
    requires WfProgram(p) && Conforms(p, st) && FIRST_FREE <= id < |p.clos| && p.clos[id].compiled
    ensures id < |st.clos| && st.clos[id] == p.clos[id] && st.clos[id].compiled
    ensures st.clos[id].code == [Prim(op), Return]
    ensures p.clos[id].code == [Prim(op), Return]
  {
    assert ClosureConforms(p, id, st.clos[id]);
    op := p.clos[id].code[0].op;
  }

  /** What a built-in's result means for the application. */
  function PrimOutcome(f: Value, r: PrimResult): Outcome<Value> {
    match r case Result(v) => Val(v) case Untouched => Val(f) case PrimError => Error case PrimUndefined => Unclaimed
  }

  /** A built-in's second instruction, after the first has left `v`. */
  lemma PrimReturns(p: Program, b: nat, st: VM, s1: VM, v: Value) returns (post: VM)
    requires Conforms(p, st) && s1.status.Running? && s1.argnum <= b && Plain(p, v)
    requires s1.frames == st.frames && s1.clos == st.clos && s1.envs == st.envs
    requires var s2, base := Step(s1), Base(st.frames);
      && s2.frames == st.frames && s2.clos == st.clos && s2.envs == st.envs && s2.argnum <= b
      && AtInstr(s2, Return) && |s2.stack| > base && s2.stack[base] == v
      && |s1.stack| >= base && s2.stack[..base] == s1.stack[..base]
    ensures Ends(p, b, st.envs, s1, Val(v), 0, 2, post)
  {
    hide Step, Conforms;
    var d, s2 := |st.frames|, Step(s1);
    StepReturn(s2, v);
    post := Step(s2);
    OneStep(b, s1, d, s2);
    OneStep(b, s2, d, post);
    RunsThen(b, s1, 1, d, s2, 1, post);
    SameTables(p, st, post);
  }

  lemma PrimEnds(
    p: Program, b: nat, st: VM, s1: VM, op: Primitive, below: seq<Value>, f: Value, args: seq<Value>, fuel: nat)
    returns (n: nat, post: VM)
    requires Conforms(p, st) && Plain(p, f) && AllPlain(p, args) && 1 + |args| == st.argnum <= b
    requires st.stack == below + [f] + args && |below| == Base(st.frames) && st.status.Running?
    requires s1 == st.(closure := s1.closure, mode := Mode.Compiled, ip := 0)
    requires s1.closure < |st.clos| && st.clos[s1.closure].code == [Prim(op), Return]
    ensures Ends(p, b, st.envs, s1, PrimOutcome(f, PrimOf(op, args)), fuel, n, post)
  {
    StepPrim(s1, op, below, f, args);
    PrimKeepsPlain(p, op, args);
    hide Step, PrimOf, Conforms;
    var out := PrimOutcome(f, PrimOf(op, args));
    assert s1.stack[..|below|] == below;
    if out.Val? {
      var s2 := Step(s1);
      assert s2.stack[..|below|] == below && s2.stack[|below|] == out.value;
      n := 2;
      post := PrimReturns(p, b, st, s1, out.value);
    } else {
      n, post := 1, Step(s1);
      OneStep(b, s1, |st.frames|, post);
    }
  }

  lemma BuiltinApply(p: Program, b: nat, st: VM, id: nat, args: seq<Value>, fuel: nat)
    requires WfProgram(p) && ApplyReady(p, b, st, Closure(id), args) && p.clos[id].compiled
    ensures ApplyEnds(p, b, st, Closure(id), args, fuel)
  {
    hide Step, Conforms, WfProgram, PrimOf, Ends;
    var op := BuiltinCode(p, st, id);
    var below := st.stack[..Base(st.frames)];
    assert st.stack == below + [Closure(id)] + args;
    var s1 := CallApply(st);
    var n, post := PrimEnds(p, b, st, s1, op, below, Closure(id), args, fuel);
    assert Apply(p, Closure(id), args, fuel) == PrimOutcome(Closure(id), PrimOf(op, args));
  }

  // ---------- every application ----------

  /** Whatever the fuel, every application by every machine of the program runs as it means: closures
      interpreted, compiled or compiled by this very call, and built-ins, mixed in any way. */
  lemma {:induction false} ApplyCorrect(p: Program, b: nat, fuel: nat)
    requires WfProgram(p) && Bounded(p, b)
    ensures ApplyClaim(p, b, fuel)
  {
    if fuel > 0 { ApplyCorrect(p, b, fuel - 1); }
    forall st, f, args | ApplyReady(p, b, st, f, args) ensures ApplyEnds(p, b, st, f, args, fuel) {
      ApplyOnce(p, b, st, f, args, fuel);
    }
  }

  lemma ApplyOnce(p: Program, b: nat, st: VM, f: Value, args: seq<Value>, fuel: nat)
    requires WfProgram(p) && Bounded(p, b) && (fuel > 0 ==> ApplyClaim(p, b, fuel - 1))
    requires ApplyReady(p, b, st, f, args)
    ensures ApplyEnds(p, b, st, f, args, fuel)
  {
    hide ApplyClaim, WfProgram, Bounded, CallApply, Apply, ApplyEnds;
    if f.Closure? {
      if p.clos[f.id].compiled {
        BuiltinApply(p, b, st, f.id, args, fuel);
      } else if st.clos[f.id].compiled {
        CompiledProof.CompiledApply(p, b, st, f.id, args, fuel);
      } else {
        InterpretedApply(p, b, st, f.id, args, fuel);
      }
    } else {
      NotApplicable(p, b, st, f, args, fuel);
    }
  }

  lemma NotApplicable(p: Program, b: nat, st: VM, f: Value, args: seq<Value>, fuel: nat)
    requires ApplyReady(p, b, st, f, args) && !f.Closure?
    ensures ApplyEnds(p, b, st, f, args, fuel)
  {
    NoSteps(b, CallApply(st), |st.frames|);
    assert Ends(p, b, st.envs, CallApply(st), Apply(p, f, args, fuel), fuel, 0, CallApply(st));
  }

  // ---------- behaviour, with no reference to the meaning ----------

  /** Started at `st`, the activation on top returns `v`, never holding more than `b` slots itself. */
  ghost predicate ReturnsValue(b: nat, st: VM, v: Value) {
    exists n: nat, post: VM :: Runs(b, st, n, |st.frames|, post) && Returned(st, v, post)
  }

  ghost predicate EndsInError(b: nat, st: VM) {
    exists n: nat, post: VM :: Runs(b, st, n, |st.frames|, post) && post.status.Failed?
  }

  /** However long it runs, the activation neither returns nor fails. */
  ghost predicate NeverEnds(b: nat, st: VM) {
    forall k: nat :: StillRunning(b, st, k)
  }

  ghost predicate StillRunning(b: nat, st: VM, k: nat) {
    exists n: nat, post: VM :: n >= k && Runs(b, st, n, |st.frames|, post) && !Over(st, post)
  }

  ghost predicate Over(st: VM, post: VM) {
    !post.status.Running? || |post.frames| < |st.frames|
  }

  lemma {:induction false} RunsPasses(b: nat, st: VM, n: nat, d: nat, post: VM, k: nat)
    requires Runs(b, st, n, d, post) && k <= n
    ensures n == k ==> post == After(st, k)
    ensures k < n ==> After(st, k).status.Running? && |After(st, k).frames| >= d
    decreases n
  {
    hide Step;
    if k > 0 { RunsPasses(b, Step(st), n - 1, d, post, k - 1); }
  }

  /** An activation ends at most once. */
  lemma OneEnd(b: nat, st: VM, n: nat, post: VM, k: nat, other: VM)
    requires Runs(b, st, n, |st.frames|, post) && Over(st, post)
    requires Runs(b, st, k, |st.frames|, other)
    ensures k <= n
    ensures Over(st, other) ==> other == post
  {
    hide Step, Runs;
    var d := |st.frames|;
    if k > n {
      RunsPasses(b, st, k, d, other, n);
      RunsPasses(b, st, n, d, post, n);
    } else {
      RunsPasses(b, st, n, d, post, k);
      RunsPasses(b, st, k, d, other, k);
    }
  }

  ghost predicate EndsFor(p: Program, b: nat, envs: seq<EnvFrame>, start: VM, out: Outcome<Value>, fuel: nat) {
    exists n: nat, post: VM :: Ends(p, b, envs, start, out, fuel, n, post)
  }

  /** From `start` the activation on top runs as `m` means for every fuel, and that is in the fragment: no call inside
      it has the wrong number of arguments or an operand its built-in does not define. */
  ghost predicate RunsAs(p: Program, b: nat, envs: seq<EnvFrame>, start: VM, m: nat -> Outcome<Value>) {
    forall fuel: nat {:trigger m(fuel)} :: !m(fuel).Unclaimed? && EndsFor(p, b, envs, start, m(fuel), fuel)
  }

  lemma UseRunsAs(p: Program, b: nat, envs: seq<EnvFrame>, start: VM, m: nat -> Outcome<Value>, fuel: nat)
    returns (n: nat, post: VM)
    requires RunsAs(p, b, envs, start, m)
    ensures !m(fuel).Unclaimed? && Ends(p, b, envs, start, m(fuel), fuel, n, post)
  {
    hide Ends;
    var out := m(fuel);
    assert EndsFor(p, b, envs, start, out, fuel);
    n, post :| Ends(p, b, envs, start, out, fuel, n, post);
  }

  lemma ReturnIsOver(st: VM, v: Value, post: VM)
    requires Returned(st, v, post)
    ensures Over(st, post) && !post.status.Failed?
  {
  }

  lemma ReturnsOneValue(st: VM, v: Value, w: Value, post: VM)
    requires Returned(st, v, post) && Returned(st, w, post)
    ensures v == w
  {
    if st.frames != [] {
      var sp := st.frames[|st.frames| - 1].sp;
      assert (st.stack[..sp] + [v])[sp] == (st.stack[..sp] + [w])[sp];
    }
  }

  /** A run that has ended fixes the meaning: the fuel need only exceed its length. */
  lemma EndedMeans(p: Program, b: nat, envs: seq<EnvFrame>, start: VM, m: nat -> Outcome<Value>, n: nat, post: VM)
    returns (out: Outcome<Value>)
    requires RunsAs(p, b, envs, start, m) && Runs(b, start, n, |start.frames|, post) && Over(start, post)
    ensures out == m(n + 1)
    ensures match out
            case Val(v) => Returned(start, v, post)
            case Error => post.status.Failed?
            case _ => false
  {
    hide Runs, Returned, RunsAs;
    var k, other := UseRunsAs(p, b, envs, start, m, n + 1);
    out := m(n + 1);
    OneEnd(b, start, n, post, k, other);
    if out.Val? { ReturnIsOver(start, out.value, other); }
  }

  lemma ReturnsIff(p: Program, b: nat, envs: seq<EnvFrame>, start: VM, m: nat -> Outcome<Value>, v: Value)
    requires RunsAs(p, b, envs, start, m)
    ensures ReturnsValue(b, start, v) <==> exists fuel: nat :: m(fuel) == Val(v)
  {
    hide Runs, Returned, RunsAs;
    if ReturnsValue(b, start, v) {
      var n: nat, post: VM :| Runs(b, start, n, |start.frames|, post) && Returned(start, v, post);
      ReturnIsOver(start, v, post);
      var out := EndedMeans(p, b, envs, start, m, n, post);
      ReturnsOneValue(start, v, out.value, post);
      assert m(n + 1) == Val(v);
    }
    if fuel: nat :| m(fuel) == Val(v) {
      var n, post := UseRunsAs(p, b, envs, start, m, fuel);
      assert Runs(b, start, n, |start.frames|, post) && Returned(start, v, post);
    }
  }

  lemma ErrorIff(p: Program, b: nat, envs: seq<EnvFrame>, start: VM, m: nat -> Outcome<Value>)
    requires RunsAs(p, b, envs, start, m)
    ensures EndsInError(b, start) <==> exists fuel: nat :: m(fuel) == Error
  {
    hide Runs, Returned, RunsAs;
    if EndsInError(b, start) {
      var n: nat, post: VM :| Runs(b, start, n, |start.frames|, post) && post.status.Failed?;
      var out := EndedMeans(p, b, envs, start, m, n, post);
      if out.Val? { ReturnIsOver(start, out.value, post); }
      assert m(n + 1) == Error;
    }
    if fuel: nat :| m(fuel) == Error {
      var n, post := UseRunsAs(p, b, envs, start, m, fuel);
      assert Runs(b, start, n, |start.frames|, post) && post.status.Failed?;
    }
  }

  lemma EndlessMeans(p: Program, b: nat, envs: seq<EnvFrame>, start: VM, m: nat -> Outcome<Value>, fuel: nat)
    requires RunsAs(p, b, envs, start, m) && NeverEnds(b, start)
    ensures m(fuel) == Timeout
  {
    hide Runs, Returned, RunsAs;
    var n, post := UseRunsAs(p, b, envs, start, m, fuel);
    var out := m(fuel);
    if !out.Timeout? {
      if out.Val? { ReturnIsOver(start, out.value, post); }
      assert StillRunning(b, start, n + 1);
      var k: nat, other: VM :| k >= n + 1 && Runs(b, start, k, |start.frames|, other) && !Over(start, other);
      OneEnd(b, start, n, post, k, other);
    }
  }

  lemma TimeoutRuns(p: Program, b: nat, envs: seq<EnvFrame>, start: VM, m: nat -> Outcome<Value>, k: nat)
    requires RunsAs(p, b, envs, start, m) && m(k) == Timeout
    ensures StillRunning(b, start, k)
  {
    hide Runs, RunsAs;
    var n, post := UseRunsAs(p, b, envs, start, m, k);
    assert n >= k && Runs(b, start, n, |start.frames|, post) && !Over(start, post);
  }

  lemma NeverEndsIff(p: Program, b: nat, envs: seq<EnvFrame>, start: VM, m: nat -> Outcome<Value>)
    requires RunsAs(p, b, envs, start, m)
    ensures NeverEnds(b, start) <==> forall fuel: nat :: m(fuel) == Timeout
  {
    hide Runs, RunsAs, StillRunning;
    if NeverEnds(b, start) {
      forall fuel: nat ensures m(fuel) == Timeout { EndlessMeans(p, b, envs, start, m, fuel); }
    } else {
      var k: nat :| !StillRunning(b, start, k);
      if m(k) == Timeout { TimeoutRuns(p, b, envs, start, m, k); }
    }
  }

  // ---------- applications ----------

  /** The application is in the fragment at every depth. */
  ghost predicate Claimed(p: Program, f: Value, args: seq<Value>) {
    forall fuel: nat :: !Apply(p, f, args, fuel).Unclaimed?
  }

  function ApplyMeaning(p: Program, f: Value, args: seq<Value>): nat -> Outcome<Value> {
    (fuel: nat) => Apply(p, f, args, fuel)
  }

  lemma MeaningEnds(p: Program, b: nat, st: VM, f: Value, args: seq<Value>, fuel: nat) returns (n: nat, post: VM)
    requires WfProgram(p) && Bounded(p, b) && ApplyReady(p, b, st, f, args)
    ensures Ends(p, b, st.envs, CallApply(st), Apply(p, f, args, fuel), fuel, n, post)
  {
    ApplyCorrect(p, b, fuel);
    n, post := UseApplyClaim(p, b, st, f, args, fuel);
  }

  lemma ApplyRunsAs(p: Program, b: nat, st: VM, f: Value, args: seq<Value>)
    requires WfProgram(p) && Bounded(p, b) && ApplyReady(p, b, st, f, args) && Claimed(p, f, args)
    ensures RunsAs(p, b, st.envs, CallApply(st), ApplyMeaning(p, f, args))
  {
    hide CallApply, Apply, Ends;
    var start, m := CallApply(st), ApplyMeaning(p, f, args);
    forall fuel: nat ensures !m(fuel).Unclaimed? && EndsFor(p, b, st.envs, start, m(fuel), fuel) {
      assert m(fuel) == Apply(p, f, args, fuel);
      var n, post := MeaningEnds(p, b, st, f, args, fuel);
    }
  }

  /** The machine returns exactly the values the meaning gives. */
  lemma ReturnsIffMeans(p: Program, b: nat, st: VM, f: Value, args: seq<Value>, v: Value)
    requires WfProgram(p) && Bounded(p, b) && ApplyReady(p, b, st, f, args) && Claimed(p, f, args)
    ensures ReturnsValue(b, CallApply(st), v) <==> exists fuel: nat :: Apply(p, f, args, fuel) == Val(v)
  {
    hide CallApply, Apply, RunsAs, ReturnsValue;
    var m := ApplyMeaning(p, f, args);
    ApplyRunsAs(p, b, st, f, args);
    ReturnsIff(p, b, st.envs, CallApply(st), m, v);
    if fuel: nat :| m(fuel) == Val(v) { assert Apply(p, f, args, fuel) == Val(v); }
    if fuel: nat :| Apply(p, f, args, fuel) == Val(v) { assert m(fuel) == Val(v); }
  }

  lemma ErrorIffMeans(p: Program, b: nat, st: VM, f: Value, args: seq<Value>)
    requires WfProgram(p) && Bounded(p, b) && ApplyReady(p, b, st, f, args) && Claimed(p, f, args)
    ensures EndsInError(b, CallApply(st)) <==> exists fuel: nat :: Apply(p, f, args, fuel) == Error
  {
    hide CallApply, Apply, RunsAs, EndsInError;
    var m := ApplyMeaning(p, f, args);
    ApplyRunsAs(p, b, st, f, args);
    ErrorIff(p, b, st.envs, CallApply(st), m);
    if fuel: nat :| m(fuel) == Error { assert Apply(p, f, args, fuel) == Error; }
    if fuel: nat :| Apply(p, f, args, fuel) == Error { assert m(fuel) == Error; }
  }

  lemma NeverEndsIffMeans(p: Program, b: nat, st: VM, f: Value, args: seq<Value>)
    requires WfProgram(p) && Bounded(p, b) && ApplyReady(p, b, st, f, args) && Claimed(p, f, args)
    ensures NeverEnds(b, CallApply(st)) <==> forall fuel: nat :: Apply(p, f, args, fuel) == Timeout
  {
    hide CallApply, Apply, RunsAs, NeverEnds;
    var m := ApplyMeaning(p, f, args);
    ApplyRunsAs(p, b, st, f, args);
    NeverEndsIff(p, b, st.envs, CallApply(st), m);
    if fuel: nat :| m(fuel) != Timeout { assert Apply(p, f, args, fuel) != Timeout; }
    if fuel: nat :| Apply(p, f, args, fuel) != Timeout { assert m(fuel) != Timeout; }
  }

  /** JIT transparency. Take any two machines of the program that are about to apply the same function to
      the same arguments: the closure may be compiled in one and interpreted in the other, or compiled by
      this call, and so may every closure it calls. One returns a value iff the other does, fails iff the
      other fails, and runs for ever iff the other does. */
  lemma JitTransparency(p: Program, b: nat, st: VM, other: VM, f: Value, args: seq<Value>)
    requires WfProgram(p) && Bounded(p, b) && Claimed(p, f, args)
    requires ApplyReady(p, b, st, f, args) && ApplyReady(p, b, other, f, args)
    ensures forall v :: ReturnsValue(b, CallApply(st), v) <==> ReturnsValue(b, CallApply(other), v)
    ensures EndsInError(b, CallApply(st)) <==> EndsInError(b, CallApply(other))
    ensures NeverEnds(b, CallApply(st)) <==> NeverEnds(b, CallApply(other))
  {
    hide CallApply, Apply, Runs, ReturnsValue, EndsInError, NeverEnds;
    forall v ensures ReturnsValue(b, CallApply(st), v) <==> ReturnsValue(b, CallApply(other), v) {
      ReturnsIffMeans(p, b, st, f, args, v);
      ReturnsIffMeans(p, b, other, f, args, v);
    }
    ErrorIffMeans(p, b, st, f, args);
    ErrorIffMeans(p, b, other, f, args);
    NeverEndsIffMeans(p, b, st, f, args);
    NeverEndsIffMeans(p, b, other, f, args);
  }
}
