/** The tree walker computes the meaning of well-formed code. */
module InterpreterProof {
  import opened Values
  import opened EnvStore
  import opened Compiler
  import opened Machine
  import opened Semantics
  import opened WellFormed
  import opened ScopeProof
  import opened FrameDiscipline
  import opened Activations
  import opened Peaks

  // ---------- what an application needs, and promises ----------

  /** The callee and its arguments are the running activation's only slots. */
  ghost predicate ApplyReady(p: Program, b: nat, st: VM, f: Value, args: seq<Value>) {
    && st.status.Running? && Conforms(p, st)
    && |st.stack| == Base(st.frames) + st.argnum
    && st.argnum == 1 + |args| <= b
    && st.stack[Base(st.frames)] == f && st.stack[Base(st.frames) + 1..] == args
    && Plain(p, f) && AllPlain(p, args)
  }

  ghost predicate ApplyEnds(p: Program, b: nat, st: VM, f: Value, args: seq<Value>, fuel: nat) {
    exists n: nat, post: VM :: Ends(p, b, st.envs, CallApply(st), Apply(p, f, args, fuel), fuel, n, post)
  }

  /** Applications with this fuel run as they mean, from every machine and in either mode. */
  ghost predicate ApplyClaim(p: Program, b: nat, fuel: nat) {
    forall st, f, args {:trigger ApplyReady(p, b, st, f, args)} | ApplyReady(p, b, st, f, args) ::
      ApplyEnds(p, b, st, f, args, fuel)
  }

  lemma UseApplyClaim(p: Program, b: nat, st: VM, f: Value, args: seq<Value>, fuel: nat) returns (n: nat, post: VM)
    requires ApplyClaim(p, b, fuel) && ApplyReady(p, b, st, f, args)
    ensures Ends(p, b, st.envs, CallApply(st), Apply(p, f, args, fuel), fuel, n, post)
  {
    hide CallApply, Ends, Apply;
    assert ApplyEnds(p, b, st, f, args, fuel);
    n, post :| Ends(p, b, st.envs, CallApply(st), Apply(p, f, args, fuel), fuel, n, post);
  }

  /** `CallApply` leaves the frames and every lower slot alone, and only adds environments. */
  lemma ApplyKeepsBelow(st: VM)
    requires |st.stack| == Base(st.frames) + st.argnum
    ensures var next := CallApply(st);
      && next.frames == st.frames && |next.stack| >= Base(st.frames)
      && next.stack[..Base(st.frames)] == st.stack[..Base(st.frames)]
      && Extends(st.envs, next.envs) && StayCompiled(st.clos, next.clos)
  {
  }

  // ---------- single steps of the tree walker ----------

  ghost predicate AtPtr(st: VM, ptr: Value) {
    st.status.Running? && st.mode == Interpreted && st.ptr == ptr
  }

  lemma StepElement(st: VM, head: Value, rest: Value)
    requires AtPtr(st, Pair(head, rest)) && head.Pair?
    ensures Step(st) == CallEval(st.(ptr := rest), head)
  {
  }

  lemma StepSymbol(st: VM, head: Value, rest: Value, v: Value)
    requires AtPtr(st, Pair(head, rest)) && head.Sym? && Lookup(st.envs, st.env, head) == Some(v)
    requires st.argnum == 0 ==> !IsSpecialForm(v) && !v.Rules?
    ensures Step(st) == Push(st.(ptr := rest), v)
  {
  }

  lemma StepDatum(st: VM, head: Value, rest: Value)
    requires AtPtr(st, Pair(head, rest)) && !head.Sym? && !head.Pair?
    ensures Step(st) == Push(st.(ptr := rest), head)
  {
  }

  lemma StepAtom(st: VM, v: Value)
    requires AtPtr(st, st.ptr) && !st.ptr.Pair? && !st.ptr.Null? && st.argnum == 0
    requires |st.stack| == Base(st.frames)
    requires if st.ptr.Sym? then Lookup(st.envs, st.env, st.ptr) == Some(v) else v == st.ptr
    ensures Returned(st, v, Step(st)) && Step(st).clos == st.clos && Step(st).envs == st.envs
  {
    var valued := st.(stack := st.stack + [v]);
    assert Step(st) == CallReturn(valued);
    assert valued.stack[..|st.stack| + 1] == valued.stack;
    assert st.stack[..Base(st.frames)] == st.stack;
  }

  lemma StepApply(st: VM)
    requires AtPtr(st, Null)
    ensures Step(st) == CallApply(st)
  {
    hide CallApply;
  }

  lemma StepSpecial(st: VM, head: Value, rest: Value, kind: RunType)
    requires AtPtr(st, Pair(head, rest)) && head.Sym? && Lookup(st.envs, st.env, head) == Some(Run(kind))
    requires st.argnum == 0 && IsSpecialForm(Run(kind))
    ensures Step(st) == HandleSpecialForm(st.(ptr := rest), kind, rest)
  {
    hide HandleSpecialForm;
  }

  // ---------- activations of interpreted code ----------

  /** The running activation walks code closed over environment `c`, with these locals bound in an environment of
      its own; or it walks a whole program's expression in `c` itself. */
  ghost predicate Walking(p: Program, c: nat, locals: map<Value, Value>, st: VM) {
    && st.status.Running? && st.mode == Interpreted
    && c < |p.envs| && st.env < |st.envs|
    && (if st.env < |p.envs| then st.env == c && locals == map[] else st.envs[st.env] == EnvFrame(locals, Some(c)))
    && Conforms(p, st)
    && |st.stack| == Base(st.frames) + st.argnum
  }

  lemma WalkingLookup(p: Program, c: nat, locals: map<Value, Value>, st: VM, s: Value)
    requires Walking(p, c, locals, st)
    ensures var g := Flatten(p.envs, c);
      Lookup(st.envs, st.env, s) ==
        if s in locals then Some(locals[s]) else if s in g then Some(g[s].value) else None
  {
    hide Conforms;
    assert Extends(p.envs, st.envs) by { ConformsExtends(p, st); }
    FlattenExtends(p.envs, st.envs, c);
    FlattenIsFind(st.envs, c, s);
  }

  lemma ConformsExtends(p: Program, st: VM)
    requires Conforms(p, st)
    ensures Extends(p.envs, st.envs) && |st.clos| == |p.clos|
  {
  }

  /** Elements that may stand in any position of a list. */
  predicate WfLoose(p: Program, g: Bindings, all: set<Value>, known: set<Value>, list: Value) {
    if list.Pair? then WfExpr(p, g, all, known, list.car, true) && WfLoose(p, g, all, known, list.cdr)
    else list == Null
  }

  lemma {:induction false} WfExprLoose(p: Program, g: Bindings, all: set<Value>, known: set<Value>, e: Value)
    requires WfExpr(p, g, all, known, e, false)
    ensures WfExpr(p, g, all, known, e, true)
  {
    if IsStatement(g, e, If) {
      WfExprLoose(p, g, all, known, e.cdr.cdr.car);
      WfExprLoose(p, g, all, known, e.cdr.cdr.cdr.car);
    } else if IsStatement(g, e, Begin) {
      WfExprLoose(p, g, all, known, e.cdr.car);
    }
  }

  lemma {:induction false} WfListLoose(p: Program, g: Bindings, all: set<Value>, known: set<Value>, list: Value)
    requires WfList(p, g, all, known, list)
    ensures WfLoose(p, g, all, known, list)
  {
    if list.Pair? {
      WfExprLoose(p, g, all, known, list.car);
      WfListLoose(p, g, all, known, list.cdr);
    }
  }

  lemma {:induction false} WfSequenceLoose(
    p: Program, g: Bindings, all: set<Value>, known: set<Value>, list: Value, tail: bool)
    requires WfSequence(p, g, all, known, list, tail)
    ensures WfLoose(p, g, all, known, list) && list.Pair?
  {
    if !(tail && list.cdr == Null) {
      WfExprLoose(p, g, all, known, list.car);
    }
    if list.cdr != Null {
      WfSequenceLoose(p, g, all, known, list.cdr, tail);
    }
  }

  /** A sequence means its list's last value. */
  lemma {:induction false} SequenceIsLast(
    p: Program, g: Bindings, locals: map<Value, Value>, list: Value, fuel: nat)
    requires list.Pair?
    ensures var values := EvalList(p, g, locals, list, fuel);
      EvalSequence(p, g, locals, list, fuel) ==
        if values.Val? then (if values.value == [] then Unclaimed else Val(values.value[|values.value| - 1]))
        else values.PropagateFailure()
    ensures EvalList(p, g, locals, list, fuel).Val? ==> |EvalList(p, g, locals, list, fuel).value| > 0
    decreases list
  {
    if list.cdr.Pair? { SequenceIsLast(p, g, locals, list.cdr, fuel); }
  }

  // ---------- joining runs ----------

  function Prefixed(vs: seq<Value>, out: Outcome<seq<Value>>): Outcome<seq<Value>> {
    if out.Val? then Val(vs + out.value) else out
  }

  function One(out: Outcome<Value>): Outcome<seq<Value>> {
    if out.Val? then Val([out.value]) else out.PropagateFailure()
  }

  /** More operands after the first ones. */
  lemma GoesOnThen(
    p: Program, b: nat, st: VM, vs: seq<Value>, m: nat, mid: VM,
    out: Outcome<seq<Value>>, fuel: nat, n: nat, post: VM)
    requires GoesOn(p, b, st, Val(vs), fuel, m, mid) && GoesOn(p, b, mid, out, fuel, n, post)
    ensures GoesOn(p, b, st, Prefixed(vs, out), fuel, m + n, post)
  {
    hide Runs;
    match out
    case Val(more) =>
      RunsThen(b, st, m, |st.frames|, mid, n, post);
      ExtendsTwice(st.envs, mid.envs, post.envs);
      assert st.stack + (vs + more) == st.stack + vs + more;
    case Error => StopsLater(b, st, m, |st.frames|, mid, |st.frames|, true, fuel, n, post, fuel);
    case Timeout => StopsLater(b, st, m, |st.frames|, mid, |st.frames|, false, fuel, n, post, fuel);
    case Unclaimed =>
  }

  /** A callee's end, seen by the caller that one step earlier pushed its frame: the value is one more
      operand. `callee` runs in a frame that holds the caller at `caller`. */
  lemma CalleeEnds(
    p: Program, b: nat, caller: VM, m: nat, envs: seq<EnvFrame>, callee: VM,
    out: Outcome<Value>, fuel: nat, n: nat, post: VM, frame: Frame, total: nat)
    requires Runs(b, caller, m, |caller.frames|, callee)
    requires callee.frames == caller.frames + [frame] && frame.sp == |caller.stack| && frame.argnum == caller.argnum
    requires frame.closure == caller.closure
    requires frame.saved.SavedIp? <==> caller.mode == Mode.Compiled
    requires frame.saved.SavedPtr? ==> frame.saved.env == caller.env
    requires |callee.stack| >= |caller.stack| && callee.stack[..|caller.stack|] == caller.stack
    requires Extends(caller.envs, envs) && StayCompiled(caller.clos, callee.clos)
    requires Ends(p, b, envs, callee, out, fuel, n, post) && total <= m + fuel
    ensures GoesOn(p, b, caller, One(out), total, m + n, post)
    ensures out.Val? && frame.saved.SavedIp? ==> post.ip == frame.saved.ip
    ensures out.Val? && frame.saved.SavedPtr? ==> post.ptr == frame.saved.ptr
  {
    hide Runs;
    var d := |caller.frames|;
    match out
    case Val(v) =>
      RunsBelow(b, callee, n, d + 1, d, post);
      RunsThen(b, caller, m, d, callee, n, post);
      ExtendsTwice(caller.envs, envs, post.envs);
      assert callee.frames[..d] == caller.frames;
    case Error => StopsLater(b, caller, m, d, callee, d + 1, true, fuel, n, post, total);
    case Timeout => StopsLater(b, caller, m, d, callee, d + 1, false, fuel, n, post, total);
    case Unclaimed =>
  }

  // ---------- the protocols of begin, if and bodies ----------

  lemma SingletonCode(p: Program, st: VM, id: nat)
    requires WfProgram(p) && Conforms(p, st) && id < FIRST_FREE
    ensures id < |st.clos| && st.clos[id] == SINGLETONS[id]
  {
    assert p.clos[id] == SINGLETONS[id];
    assert ClosureConforms(p, id, st.clos[id]);
  }

  /** Applying a singleton closure starts its code. */
  lemma ApplySingleton(p: Program, st: VM, id: nat) returns (next: VM)
    requires WfProgram(p) && Conforms(p, st) && AtPtr(st, Null) && id < FIRST_FREE
    requires 0 < st.argnum <= |st.stack| && st.stack[|st.stack| - st.argnum] == Closure(id)
    ensures next == st.(closure := id, mode := Mode.Compiled, ip := 0) && Step(st) == next
    ensures id < |next.clos| && next.clos[id] == SINGLETONS[id]
  {
    SingletonCode(p, st, id);
    StepApply(st);
    next := CallApply(st);
  }

  /** All operands are there and return-last is their function: the last one is the result. */
  lemma FinishSequence(p: Program, b: nat, st: VM, v: Value) returns (post: VM)
    requires WfProgram(p) && Conforms(p, st) && AtPtr(st, Null) && Plain(p, v)
    requires |st.stack| == Base(st.frames) + st.argnum && 2 <= st.argnum <= b
    requires st.stack[Base(st.frames)] == Closure(RETURN_LAST) && st.stack[|st.stack| - 1] == v
    ensures Ends(p, b, st.envs, st, Val(v), 0, 2, post)
  {
    hide Step, Conforms, WfProgram, Runs;
    var st1 := ApplySingleton(p, st, RETURN_LAST);
    post := Step(st1);
    StepReturnLast(st1, v);
    SameTables(p, st, post);
    OneStep(b, st, |st.frames|, st1);
    OneStep(b, st1, |st.frames|, post);
    RunsThen(b, st, 1, |st.frames|, st1, 1, post);
  }

  /** The state in which the test of an `if` has been evaluated, over the slots of `at`. */
  function TestDone(at: VM, left: Value, right: Value, test: Value): VM {
    var frame := Frame(at.closure, |at.stack| + 1, 1, SavedPtr(Null, at.env));
    at.(stack := at.stack + [Run(SetPtr), Closure(INTERN_IF), left, right, test], argnum := 4,
        frames := at.frames + [frame], mode := Interpreted, ptr := Null)
  }

  lemma StepInternIf(st: VM, below: seq<Value>, left: Value, right: Value, test: Value)
    requires AtInstr(st, InternIf) && st.argnum == 4
    requires st.stack == below + [Closure(INTERN_IF), left, right, test]
    ensures Step(st) ==
      st.(stack := below + [if test == Bool(false) then right else left], argnum := 1, ip := st.ip + 1)
  {
    assert st.stack[..|st.stack| - 4] == below;
  }

  lemma StepReturnToWalker(st: VM, below: seq<Value>, v: Value, frames: seq<Frame>, f: Frame)
    requires AtInstr(st, Return) && st.stack == below + [v]
    requires st.frames == frames + [f] && f.sp == |below| && f.saved.SavedPtr?
    ensures Step(st) == st.(argnum := f.argnum + 1, closure := f.closure, frames := frames,
                            mode := Interpreted, ptr := f.saved.ptr, env := f.saved.env)
  {
    assert st.frames[..|frames|] == frames;
    assert st.stack[..|below| + 1] == st.stack;
  }

  lemma StepSetPtr(st: VM, below: seq<Value>, branch: Value)
    requires AtPtr(st, Null) && st.argnum == 2 && st.stack == below + [Run(SetPtr), branch]
    ensures Step(st) == st.(ptr := branch, stack := below, argnum := 0)
  {
    assert st.stack[..|below|] == below;
  }

  /** From there, intern-if and set-ptr continue in the same activation with the chosen branch. */
  lemma ChooseBranch(p: Program, b: nat, at: VM, left: Value, right: Value, test: Value) returns (post: VM)
    requires WfProgram(p) && Conforms(p, at) && at.status.Running? && b >= 4
    requires |at.stack| == Base(at.frames) && at.argnum == 0 && at.mode == Interpreted
    ensures post == at.(ptr := if test == Bool(false) then right else left, ip := post.ip)
    ensures Runs(b, TestDone(at, left, right, test), 4, |at.frames|, post)
  {
    hide Step, Conforms, WfProgram, Runs;
    var chosen := if test == Bool(false) then right else left;
    var below := at.stack + [Run(SetPtr)];
    var s0 := TestDone(at, left, right, test);
    assert s0.stack == below + [Closure(INTERN_IF), left, right, test];
    SameTables(p, at, s0);
    var s1 := ApplySingleton(p, s0, INTERN_IF);
    var s2 := s1.(stack := below + [chosen], argnum := 1, ip := 1);
    var s3 := s2.(argnum := 2, frames := at.frames, closure := at.closure, mode := Interpreted);
    post := at.(ptr := chosen, ip := 1);
    StepInternIf(s1, below, left, right, test);
    assert AtInstr(s2, Return);
    StepReturnToWalker(s2, below, chosen, at.frames, s0.frames[|at.frames|]);
    assert s3.stack == at.stack + [Run(SetPtr), chosen];
    StepSetPtr(s3, at.stack, chosen);
    var d := |at.frames|;
    OneStep(b, s0, d, s1);
    OneStep(b, s1, d, s2);
    OneStep(b, s2, d, s3);
    OneStep(b, s3, d, post);
    RunsThen(b, s0, 1, d, s1, 1, s2);
    RunsThen(b, s0, 2, d, s2, 1, s3);
    RunsThen(b, s0, 3, d, s3, 1, post);
  }

  /** The state in which an interpreted `if` starts on its test. */
  function TestStarts(at: VM, e: Value): VM
    requires IfShape(e)
  {
    var frame := Frame(at.closure, |at.stack| + 1, 1, SavedPtr(Null, at.env));
    var inner := Frame(at.closure, |at.stack| + 4, 3, SavedPtr(Null, at.env));
    at.(stack := at.stack + [Run(SetPtr), Closure(INTERN_IF), e.cdr.cdr.car, e.cdr.cdr.cdr.car],
        frames := at.frames + [frame, inner], argnum := 0, ptr := e.cdr.car)
  }

  lemma StepIf(st: VM, e: Value)
    requires AtPtr(st, e) && IfShape(e) && e.car.Sym? && Lookup(st.envs, st.env, e.car) == Some(Run(If))
    requires st.argnum == 0
    ensures Step(st) == TestStarts(st, e)
  {
    StepSpecial(st, e.car, e.cdr, If);
    hide Step;
    var next := HandleIf(st.(ptr := e.cdr), e.cdr);
    assert next.stack == TestStarts(st, e).stack;
    assert next.frames == TestStarts(st, e).frames;
  }

  /** Same activation, ready to evaluate another expression from the same place. */
  ghost predicate BackAt(p: Program, st: VM, ptr: Value, post: VM) {
    && post.status.Running? && post.mode == st.mode && post.closure == st.closure && post.env == st.env
    && post.stack == st.stack && post.argnum == st.argnum && post.frames == st.frames
    && post.ptr == ptr && KeepsTables(p, st.envs, st.clos, post)
  }

  lemma AfterTest(p: Program, b: nat, st: VM, e: Value, v: Value, fuel: nat, n: nat, tested: VM) returns (post: VM)
    requires WfProgram(p) && b >= 4 && IfShape(e)
    requires st.status.Running? && st.mode == Interpreted && st.argnum == 0 && |st.stack| == Base(st.frames)
    requires Step(st) == TestStarts(st, e) && Ends(p, b, st.envs, TestStarts(st, e), Val(v), fuel, n, tested)
    ensures Runs(b, st, n + 5, |st.frames|, post)
    ensures BackAt(p, st, if v == Bool(false) then e.cdr.cdr.cdr.car else e.cdr.cdr.car, post)
  {
    hide Step, Conforms, WfProgram, Extends;
    var d := |st.frames|;
    var start := TestStarts(st, e);
    var at := st.(clos := tested.clos, envs := tested.envs, ip := tested.ip);
    assert TestDone(at, e.cdr.cdr.car, e.cdr.cdr.cdr.car, v) == tested by {
      hide Runs;
      var f := start.frames[|start.frames| - 1];
      assert start.frames[..|start.frames| - 1] == at.frames + [start.frames[d]];
      assert start.stack[..f.sp] == start.stack;
    }
    SameTables(p, tested, at);
    post := ChooseBranch(p, b, at, e.cdr.cdr.car, e.cdr.cdr.cdr.car, v);
    SameTables(p, at, post);
    OneStep(b, st, d, start);
    RunsBelow(b, start, n, d + 2, d, tested);
    RunsThen(b, st, 1, d, start, n, tested);
    RunsThen(b, st, 1 + n, d, tested, 4, post);
  }

  lemma SameTables(p: Program, st: VM, post: VM)
    requires Conforms(p, st) && post.clos == st.clos && post.envs == st.envs
    ensures Conforms(p, post)
  {
  }

  // ---------- expressions and lists ----------

  ghost predicate LocalsPlain(p: Program, locals: map<Value, Value>) {
    forall v | v in locals :: Plain(p, locals[v])
  }

  /** What holds throughout one activation's proof. */
  ghost predicate Setting(p: Program, b: nat, c: nat, all: set<Value>, locals: map<Value, Value>, fuel: nat) {
    && WfProgram(p) && Bounded(p, b)
    && c < |p.envs| && NoFormNames(Flatten(p.envs, c), all) && locals.Keys <= all
    && LocalsPlain(p, locals)
    && (fuel > 0 ==> ApplyClaim(p, b, fuel - 1))
  }

  lemma OperandsReady(p: Program, b: nat, st: VM, values: seq<Value>, mid: VM)
    requires st.argnum == 0 && |st.stack| == Base(st.frames) && 0 < |values| <= b
    requires Advanced(st, values, mid) && KeepsTables(p, st.envs, st.clos, mid) && AllPlain(p, values)
    ensures ApplyReady(p, b, mid, values[0], values[1..])
  {
    assert mid.stack[Base(st.frames)..] == values;
  }

  /** What applying the operands leaves alone. */
  lemma OperandsApplied(p: Program, st: VM, values: seq<Value>, mid: VM)
    requires st.argnum == 0 && |st.stack| == Base(st.frames)
    requires Advanced(st, values, mid) && KeepsTables(p, st.envs, st.clos, mid)
    ensures var applied := CallApply(mid);
      && applied.frames == st.frames && StayCompiled(st.clos, applied.clos)
      && |applied.stack| >= Base(st.frames) && applied.stack[..Base(st.frames)] == st.stack[..Base(st.frames)]
  {
    hide CallApply, Conforms;
    ApplyKeepsBelow(mid);
    assert mid.stack[..Base(st.frames)] == st.stack;
  }

  /** All operands of a call are there: apply. */
  lemma ApplyOperands(p: Program, b: nat, st: VM, values: seq<Value>, fuel: nat, m: nat, mid: VM)
    returns (n: nat, post: VM)
    requires fuel > 0 ==> ApplyClaim(p, b, fuel - 1)
    requires st.argnum == 0 && st.mode == Interpreted && |st.stack| == Base(st.frames)
    requires 0 < |values| <= b
    requires GoesOn(p, b, st, Val(values), fuel, m, mid) && mid.ptr == Null
    ensures var out := if fuel == 0 then Timeout else Apply(p, values[0], values[1..], fuel - 1);
      Ends(p, b, st.envs, st, out, fuel, n, post)
  {
    hide Step, CallApply, Apply, ApplyClaim, Runs, Conforms, StayCompiled;
    if fuel == 0 {
      n, post := m, mid;
    } else {
      OperandsReady(p, b, st, values, mid);
      OperandsApplied(p, st, values, mid);
      var k;
      k, post := UseApplyClaim(p, b, mid, values[0], values[1..], fuel - 1);
      var applied := CallApply(mid);
      var d := |st.frames|;
      StepApply(mid);
      OneStep(b, mid, d, applied);
      RunsThen(b, st, m, d, mid, 1, applied);
      var out := Apply(p, values[0], values[1..], fuel - 1);
      EndsLater(p, b, st.envs, st, m + 1, mid.envs, applied, out, fuel - 1, k, post, fuel);
      n := m + 1 + k;
    }
  }

  lemma WalkingGoesOn(p: Program, c: nat, locals: map<Value, Value>, st: VM, post: VM)
    requires Walking(p, c, locals, st) && KeepsTables(p, st.envs, st.clos, post)
    requires post.status.Running? && post.mode == Interpreted && post.env == st.env
    requires |post.stack| == Base(post.frames) + post.argnum
    ensures Walking(p, c, locals, post)
  {
  }

  lemma AtomPlain(p: Program, b: nat, c: nat, all: set<Value>, locals: map<Value, Value>, e: Value, fuel: nat)
    requires Setting(p, b, c, all, locals, fuel) && !e.Pair?
    requires WfExpr(p, Flatten(p.envs, c), all, locals.Keys, e, true)
    ensures var out := EvalExpr(p, Flatten(p.envs, c), locals, e, fuel); out.Val? && Plain(p, out.value)
  {
  }

  lemma AtomWalk(
    p: Program, b: nat, c: nat, all: set<Value>, locals: map<Value, Value>, e: Value, st: VM, fuel: nat)
    returns (post: VM)
    requires Setting(p, b, c, all, locals, fuel) && Walking(p, c, locals, st)
    requires st.argnum == 0 && st.ptr == e && e != Null && !e.Pair?
    requires WfExpr(p, Flatten(p.envs, c), all, locals.Keys, e, true)
    ensures Ends(p, b, st.envs, st, EvalExpr(p, Flatten(p.envs, c), locals, e, fuel), fuel, 1, post)
  {
    hide Step, Conforms, WfProgram, Runs, ApplyClaim;
    AtomPlain(p, b, c, all, locals, e, fuel);
    WalkingLookup(p, c, locals, st, e);
    post := Step(st);
    StepAtom(st, EvalExpr(p, Flatten(p.envs, c), locals, e, fuel).value);
    OneStep(b, st, |st.frames|, post);
    SameTables(p, st, post);
  }

  lemma {:induction false} ExprSim(
    p: Program, b: nat, c: nat, all: set<Value>, locals: map<Value, Value>, e: Value, d: nat, st: VM, fuel: nat)
    returns (n: nat, post: VM)
    requires Setting(p, b, c, all, locals, fuel) && Walking(p, c, locals, st)
    requires st.argnum == 0 && st.ptr == e && e != Null
    requires WfExpr(p, Flatten(p.envs, c), all, locals.Keys, e, true)
    requires d > 0 && PeakElem(Flatten(p.envs, c), e, d) <= b
    ensures Ends(p, b, st.envs, st, EvalExpr(p, Flatten(p.envs, c), locals, e, fuel), fuel, n, post)
    decreases fuel, e, 2
  {
    hide Step, Conforms, WfProgram, Runs, ApplyClaim;
    var g := Flatten(p.envs, c);
    var depth := |st.frames|;
    if !e.Pair? {
      n := 1;
      post := AtomWalk(p, b, c, all, locals, e, st, fuel);
    } else if IsStatement(g, e, If) {
      n, post := IfSim(p, b, c, all, locals, e, d, st, fuel);
    } else if IsStatement(g, e, Begin) {
      n, post := BeginSim(p, b, c, all, locals, e, d, st, fuel);
    } else {
      WfListLoose(p, g, all, locals.Keys, e);
      EvalListLength(p, g, locals, e, fuel);
      var m, mid := ListSim(p, b, c, all, locals, e, d, st, fuel);
      match EvalList(p, g, locals, e, fuel)
      case Val(values) => n, post := ApplyOperands(p, b, st, values, fuel, m, mid);
      case Error => n, post := m, mid;
      case Timeout => n, post := m, mid;
      case Unclaimed => n, post := 0, st;
    }
  }

  /** The parts of an `if`, and what it means in terms of them. */
  lemma IfParts(
    p: Program, b: nat, g: Bindings, all: set<Value>, locals: map<Value, Value>, e: Value, d: nat, fuel: nat)
    requires IsStatement(g, e, If) && WfExpr(p, g, all, locals.Keys, e, true) && PeakElem(g, e, d) <= b
    ensures IfShape(e)
    ensures var test, left, right := e.cdr.car, e.cdr.cdr.car, e.cdr.cdr.cdr.car;
      && test != Null && WfExpr(p, g, all, locals.Keys, test, true) && PeakElem(g, test, d) <= b
      && left != Null && WfExpr(p, g, all, locals.Keys, left, true) && PeakElem(g, left, d) <= b
      && right != Null && WfExpr(p, g, all, locals.Keys, right, true) && PeakElem(g, right, d) <= b
      && var tested := EvalExpr(p, g, locals, test, fuel);
      && EvalExpr(p, g, locals, e, fuel) ==
         if tested.Val? then EvalExpr(p, g, locals, if tested.value == Bool(false) then right else left, fuel)
         else tested
  {
    WfExprLoose(p, g, all, locals.Keys, e.cdr.car);
  }

  /** The test runs two frames up, and the chosen branch in the activation of the `if`. */
  lemma {:induction false} IfSim(
    p: Program, b: nat, c: nat, all: set<Value>, locals: map<Value, Value>, e: Value, d: nat, st: VM, fuel: nat)
    returns (n: nat, post: VM)
    requires Setting(p, b, c, all, locals, fuel) && Walking(p, c, locals, st)
    requires st.argnum == 0 && st.ptr == e && IsStatement(Flatten(p.envs, c), e, If)
    requires WfExpr(p, Flatten(p.envs, c), all, locals.Keys, e, true)
    requires d > 0 && PeakElem(Flatten(p.envs, c), e, d) <= b
    ensures Ends(p, b, st.envs, st, EvalExpr(p, Flatten(p.envs, c), locals, e, fuel), fuel, n, post)
    decreases fuel, e, 1
  {
    hide Step, Conforms, WfProgram, Runs, ApplyClaim, WfExpr, PeakElem, EvalExpr;
    var g := Flatten(p.envs, c);
    IfParts(p, b, g, all, locals, e, d, fuel);
    var depth := |st.frames|;
    WalkingLookup(p, c, locals, st, e.car);
    StepIf(st, e);
    var start := TestStarts(st, e);
    SameTables(p, st, start);
    var n1, tested := ExprSim(p, b, c, all, locals, e.cdr.car, d, start, fuel);
    var test := EvalExpr(p, g, locals, e.cdr.car, fuel);
    OneStep(b, st, depth, start);
    match test
    case Val(v) =>
      var mid := AfterTest(p, b, st, e, v, fuel, n1, tested);
      WalkingGoesOn(p, c, locals, st, mid);
      var k;
      k, post := ExprSim(p, b, c, all, locals, mid.ptr, d, mid, fuel);
      EndsLater(p, b, st.envs, st, n1 + 5, mid.envs, mid, EvalExpr(p, g, locals, mid.ptr, fuel), fuel, k, post, fuel);
      n := n1 + 5 + k;
    case Error =>
      n, post := 1 + n1, tested;
      StopsLater(b, st, 1, depth, start, depth + 2, true, fuel, n1, post, fuel);
    case Timeout =>
      n, post := 1 + n1, tested;
      StopsLater(b, st, 1, depth, start, depth + 2, false, fuel, n1, post, fuel);
    case Unclaimed => n, post := 0, st;
  }

  /** A list whose function slot holds return-last means its last element. */
  lemma {:induction false} BeginSim(
    p: Program, b: nat, c: nat, all: set<Value>, locals: map<Value, Value>, e: Value, d: nat, st: VM, fuel: nat)
    returns (n: nat, post: VM)
    requires Setting(p, b, c, all, locals, fuel) && Walking(p, c, locals, st)
    requires st.argnum == 0 && st.ptr == e && IsStatement(Flatten(p.envs, c), e, Begin)
    requires WfSequence(p, Flatten(p.envs, c), all, locals.Keys, e.cdr, true)
    requires d > 0 && PeakList(Flatten(p.envs, c), e.cdr, d) <= b
    ensures Ends(p, b, st.envs, st, EvalSequence(p, Flatten(p.envs, c), locals, e.cdr, fuel), fuel, n, post)
    decreases fuel, e, 1
  {
    hide Step, Conforms, WfProgram, Runs, ApplyClaim;
    WalkingLookup(p, c, locals, st, e.car);
    StepSpecial(st, e.car, e.cdr, Begin);
    var start := st.(stack := st.stack + [Closure(RETURN_LAST)], argnum := 1, ptr := e.cdr);
    assert Step(st) == start;
    SameTables(p, st, start);
    OneStep(b, st, |st.frames|, start);
    var k;
    k, post := SequenceSim(p, b, c, all, locals, e.cdr, d, start, fuel);
    assert start.stack[..Base(st.frames)] == st.stack[..Base(st.frames)];
    var out := EvalSequence(p, Flatten(p.envs, c), locals, e.cdr, fuel);
    EndsLater(p, b, st.envs, st, 1, start.envs, start, out, fuel, k, post, fuel);
    n := 1 + k;
  }

  lemma {:induction false} SequenceSim(
    p: Program, b: nat, c: nat, all: set<Value>, locals: map<Value, Value>, list: Value, d: nat, st: VM, fuel: nat)
    returns (n: nat, post: VM)
    requires Setting(p, b, c, all, locals, fuel) && Walking(p, c, locals, st)
    requires 0 < st.argnum <= d && st.ptr == list && st.stack[Base(st.frames)] == Closure(RETURN_LAST)
    requires WfSequence(p, Flatten(p.envs, c), all, locals.Keys, list, true)
    requires PeakList(Flatten(p.envs, c), list, d) <= b
    ensures Ends(p, b, st.envs, st, EvalSequence(p, Flatten(p.envs, c), locals, list, fuel), fuel, n, post)
    decreases fuel, list, 2
  {
    hide Step, Conforms, WfProgram, Runs, ApplyClaim;
    var g := Flatten(p.envs, c);
    WfSequenceLoose(p, g, all, locals.Keys, list, true);
    SequenceIsLast(p, g, locals, list, fuel);
    var m, mid := ListSim(p, b, c, all, locals, list, d, st, fuel);
    match EvalList(p, g, locals, list, fuel)
    case Val(values) =>
      EvalListLength(p, g, locals, list, fuel);
      post := FinishSequence(p, b, mid, values[|values| - 1]);
      assert mid.stack[..Base(st.frames)] == st.stack[..Base(st.frames)];
      EndsLater(p, b, st.envs, st, m, mid.envs, mid, Val(values[|values| - 1]), 0, 2, post, m);
      n := m + 2;
    case Error => n, post := m, mid;
    case Timeout => n, post := m, mid;
    case Unclaimed => n, post := 0, st;
  }

  lemma {:induction false} EvalListLength(
    p: Program, g: Bindings, locals: map<Value, Value>, list: Value, fuel: nat)
    ensures var out := EvalList(p, g, locals, list, fuel); out.Val? ==> |out.value| == ListLength(list)
    decreases list
  {
    if list.Pair? { EvalListLength(p, g, locals, list.cdr, fuel); }
  }

  lemma {:induction false} ListSim(
    p: Program, b: nat, c: nat, all: set<Value>, locals: map<Value, Value>, list: Value, d: nat, st: VM, fuel: nat)
    returns (n: nat, post: VM)
    requires Setting(p, b, c, all, locals, fuel) && Walking(p, c, locals, st)
    requires st.ptr == list && st.argnum <= d
    requires WfLoose(p, Flatten(p.envs, c), all, locals.Keys, list)
    requires d > 0 && PeakList(Flatten(p.envs, c), list, d) <= b
    ensures GoesOn(p, b, st, EvalList(p, Flatten(p.envs, c), locals, list, fuel), fuel, n, post)
    ensures EvalList(p, Flatten(p.envs, c), locals, list, fuel).Val? ==> post.ptr == Null
    decreases fuel, list, 1
  {
    hide Step, Conforms, WfProgram, Runs, ApplyClaim;
    var g := Flatten(p.envs, c);
    if list == Null {
      n, post := 0, st;
      assert Runs(b, st, 0, |st.frames|, st) by { NoSteps(b, st, |st.frames|); }
    } else {
      var m, mid := ElementSim(p, b, c, all, locals, list, d, st, fuel);
      match EvalExpr(p, g, locals, list.car, fuel)
      case Val(v) =>
        WalkingGoesOn(p, c, locals, st, mid);
        var k;
        k, post := ListSim(p, b, c, all, locals, list.cdr, d + 1, mid, fuel);
        GoesOnThen(p, b, st, [v], m, mid, EvalList(p, g, locals, list.cdr, fuel), fuel, k, post);
        n := m + k;
      case Error => n, post := m, mid;
      case Timeout => n, post := m, mid;
      case Unclaimed => n, post := 0, st;
    }
  }

  lemma NoSteps(b: nat, st: VM, d: nat)
    ensures Runs(b, st, 0, d, st)
  {
  }

  /** One operand: a step for an atom, a frame of its own for a list. */
  lemma {:induction false} ElementSim(
    p: Program, b: nat, c: nat, all: set<Value>, locals: map<Value, Value>, list: Value, d: nat, st: VM, fuel: nat)
    returns (n: nat, post: VM)
    requires Setting(p, b, c, all, locals, fuel) && Walking(p, c, locals, st)
    requires st.ptr == list && list.Pair? && st.argnum <= b
    requires WfExpr(p, Flatten(p.envs, c), all, locals.Keys, list.car, true)
    requires d > 0 && PeakElem(Flatten(p.envs, c), list.car, d) <= b
    ensures GoesOn(p, b, st, One(EvalExpr(p, Flatten(p.envs, c), locals, list.car, fuel)), fuel, n, post)
    ensures EvalExpr(p, Flatten(p.envs, c), locals, list.car, fuel).Val? ==> post.ptr == list.cdr
    decreases fuel, list, 0
  {
    hide Step, Conforms, WfProgram, Runs, ApplyClaim;
    var g := Flatten(p.envs, c);
    var head := list.car;
    if head.Pair? {
      StepElement(st, head, list.cdr);
      var frame := Frame(st.closure, |st.stack|, st.argnum, SavedPtr(list.cdr, st.env));
      var start := st.(ptr := head, argnum := 0, frames := st.frames + [frame]);
      assert Step(st) == start;
      SameTables(p, st, start);
      OneStep(b, st, |st.frames|, start);
      var k;
      k, post := ExprSim(p, b, c, all, locals, head, d, start, fuel);
      CalleeEnds(p, b, st, 1, start.envs, start, EvalExpr(p, g, locals, head, fuel), fuel, k, post, frame, fuel);
      n := 1 + k;
    } else {
      AtomPlain(p, b, c, all, locals, head, fuel);
      WalkingLookup(p, c, locals, st, head);
      var v := EvalExpr(p, g, locals, head, fuel).value;
      if head.Sym? { StepSymbol(st, head, list.cdr, v); } else { StepDatum(st, head, list.cdr); }
      post := Push(st.(ptr := list.cdr), v);
      assert Step(st) == post;
      SameTables(p, st, post);
      OneStep(b, st, |st.frames|, post);
      n := 1;
    }
  }

  // ---------- bodies ----------

  lemma StepDefine(st: VM, e: Value)
    requires AtPtr(st, e) && DefineShape(e) && e.car.Sym? && e.cdr.car.Sym? && st.argnum == 0
    requires Lookup(st.envs, st.env, e.car) == Some(Run(Define))
    ensures Step(st) ==
      st.(stack := st.stack + [Closure(INTERN_DEFINE), e.cdr.car], argnum := 2, ptr := e.cdr.cdr)
  {
    StepSpecial(st, e.car, e.cdr, Define);
    hide Step;
    assert st.stack + [Closure(INTERN_DEFINE)] + [e.cdr.car] == st.stack + [Closure(INTERN_DEFINE), e.cdr.car];
  }

  lemma StepInternDefine(st: VM, below: seq<Value>, name: Value, v: Value)
    requires AtInstr(st, InternDefine) && st.argnum == 3 && st.env < |st.envs| && name.Sym?
    requires st.stack == below + [Closure(INTERN_DEFINE), name, v]
    ensures Step(st) == st.(stack := below + [Closure(INTERN_DEFINE)], argnum := 1, ip := st.ip + 1,
                            envs := SetVar(st.envs, st.env, name, v))
  {
    assert st.stack[..|st.stack| - 2] == below + [Closure(INTERN_DEFINE)];
  }

  /** Same activation of a body after a define: the new local is bound in its own environment. */
  ghost predicate Defined(p: Program, c: nat, locals: map<Value, Value>, st: VM, ptr: Value, post: VM)
    requires st.env <= |st.envs|
  {
    && Walking(p, c, locals, post) && |p.envs| <= post.env
    && post.stack == st.stack + [Closure(INTERN_DEFINE)] && post.argnum == st.argnum + 1
    && post.frames == st.frames && post.closure == st.closure && post.env == st.env
    && post.ptr == ptr
    && Extends(st.envs[..st.env], post.envs) && StayCompiled(st.clos, post.clos)
  }

  /** Intern-define takes its three operands: bind, and resume the body. */
  lemma FinishDefine(
    p: Program, b: nat, c: nat, locals: map<Value, Value>, st: VM, frame: Frame, name: Value, v: Value, mid: VM)
    returns (post: VM)
    requires WfProgram(p) && b >= 4 && name.Sym? && Walking(p, c, locals, st) && |p.envs| <= st.env
    requires frame.saved.SavedPtr?
    requires frame == Frame(st.closure, |st.stack|, st.argnum, SavedPtr(frame.saved.ptr, st.env))
    requires AtPtr(mid, Null) && mid.frames == st.frames + [frame] && mid.env == st.env
    requires mid.stack == st.stack + [Closure(INTERN_DEFINE), name, v] && mid.argnum == 3
    requires KeepsTables(p, st.envs, st.clos, mid)
    ensures Runs(b, mid, 3, |st.frames|, post)
    ensures Defined(p, c, locals[name := v], st, frame.saved.ptr, post)
  {
    hide Step, Conforms, WfProgram, Runs;
    ConformsExtends(p, mid);
    var s1 := ApplySingleton(p, mid, INTERN_DEFINE);
    var s2 := s1.(stack := st.stack + [Closure(INTERN_DEFINE)], argnum := 1, ip := 1,
                  envs := SetVar(mid.envs, mid.env, name, v));
    post := s2.(argnum := frame.argnum + 1, closure := frame.closure, frames := st.frames,
                mode := Interpreted, ptr := frame.saved.ptr);
    StepInternDefine(s1, st.stack, name, v);
    StepReturnToWalker(s2, st.stack, Closure(INTERN_DEFINE), st.frames, frame);
    ConformsAfterDefine(p, mid, name, v, post);
    var d := |st.frames|;
    OneStep(b, mid, d, s1);
    OneStep(b, s1, d, s2);
    OneStep(b, s2, d, post);
    RunsThen(b, mid, 1, d, s1, 1, s2);
    RunsThen(b, mid, 2, d, s2, 1, post);
  }

  lemma ConformsAfterDefine(p: Program, st: VM, name: Value, v: Value, post: VM)
    requires Conforms(p, st) && |p.envs| <= st.env < |st.envs|
    requires post.clos == st.clos && post.envs == SetVar(st.envs, st.env, name, v)
    ensures Conforms(p, post)
  {
  }

  lemma {:induction false} DefineSim(
    p: Program, b: nat, c: nat, all: set<Value>, locals: map<Value, Value>, body: Value, d: nat, st: VM, fuel: nat)
    returns (n: nat, post: VM)
    requires Setting(p, b, c, all, locals, fuel) && Walking(p, c, locals, st) && |p.envs| <= st.env
    requires st.ptr == body && body.Pair? && 0 < st.argnum <= b
    requires IsStatement(Flatten(p.envs, c), body.car, Define)
    requires DefineShape(body.car) && body.car.cdr.car.Sym?
    requires WfExpr(p, Flatten(p.envs, c), all, locals.Keys, body.car.cdr.cdr.car, false)
    requires d > 0 && PeakElem(Flatten(p.envs, c), body.car.cdr.cdr.car, d) <= b
    ensures match EvalExpr(p, Flatten(p.envs, c), locals, body.car.cdr.cdr.car, fuel)
            case Val(v) =>
              && Runs(b, st, n, |st.frames|, post) && Plain(p, v)
              && Defined(p, c, locals[body.car.cdr.car := v], st, body.cdr, post)
            case Error => Stops(b, st, |st.frames|, true, fuel, n, post)
            case Timeout => Stops(b, st, |st.frames|, false, fuel, n, post)
            case Unclaimed => true
  {
    hide Step, Conforms, WfProgram, Runs, ApplyClaim;
    var g := Flatten(p.envs, c);
    var depth := |st.frames|;
    var form := body.car;
    StepElement(st, form, body.cdr);
    var frame := Frame(st.closure, |st.stack|, st.argnum, SavedPtr(body.cdr, st.env));
    var s1 := st.(ptr := form, argnum := 0, frames := st.frames + [frame]);
    assert Step(st) == s1;
    WalkingLookup(p, c, locals, st, form.car);
    StepDefine(s1, form);
    var s2 := s1.(stack := st.stack + [Closure(INTERN_DEFINE), form.cdr.car], argnum := 2, ptr := form.cdr.cdr);
    SameTables(p, st, s2);
    WfExprLoose(p, g, all, locals.Keys, form.cdr.cdr.car);
    var k, mid := ElementSim(p, b, c, all, locals, form.cdr.cdr, d, s2, fuel);
    OneStep(b, st, depth, s1);
    OneStep(b, s1, depth, s2);
    RunsThen(b, st, 1, depth, s1, 1, s2);
    n, post := 2 + k, mid;
    match EvalExpr(p, g, locals, form.cdr.cdr.car, fuel)
    case Val(v) =>
      assert mid.stack == st.stack + [Closure(INTERN_DEFINE), form.cdr.car, v];
      assert Plain(p, [v][0]);
      post := FinishDefine(p, b, c, locals, st, frame, form.cdr.car, v, mid);
      RunsBelow(b, s2, k, depth + 1, depth, mid);
      RunsThen(b, st, 2, depth, s2, k, mid);
      RunsThen(b, st, 2 + k, depth, mid, 3, post);
      n := 2 + k + 3;
    case Error => StopsLater(b, st, 2, depth, s2, depth + 1, true, fuel, k, mid, fuel);
    case Timeout => StopsLater(b, st, 2, depth, s2, depth + 1, false, fuel, k, mid, fuel);
    case Unclaimed =>
  }

  lemma SettingDefine(
    p: Program, b: nat, c: nat, all: set<Value>, locals: map<Value, Value>, name: Value, v: Value, fuel: nat)
    requires Setting(p, b, c, all, locals, fuel) && name in all && Plain(p, v)
    ensures Setting(p, b, c, all, locals[name := v], fuel)
    ensures locals[name := v].Keys == locals.Keys + {name}
  {
  }

  /** A whole body, from the state in which its environment has just been made. */
  lemma {:induction false} BodySim(
    p: Program, b: nat, c: nat, all: set<Value>, locals: map<Value, Value>, body: Value, d: nat, st: VM, fuel: nat)
    returns (n: nat, post: VM)
    requires Setting(p, b, c, all, locals, fuel) && Walking(p, c, locals, st) && |p.envs| <= st.env
    requires 0 < st.argnum <= d && st.ptr == body && st.stack[Base(st.frames)] == Closure(RETURN_LAST)
    requires WfBody(p, Flatten(p.envs, c), all, locals.Keys, body)
    requires PeakList(Flatten(p.envs, c), body, d) <= b
    ensures Ends(p, b, st.envs[..st.env], st, EvalBody(p, Flatten(p.envs, c), locals, body, fuel), fuel, n, post)
    decreases body
  {
    hide Step, Conforms, WfProgram, Runs, ApplyClaim, Setting, Returned, PeakList, PeakElem, WfExpr, EvalExpr;
    var g := Flatten(p.envs, c);
    var own := st.envs[..st.env];
    if body.Pair? && IsStatement(g, body.car, Define) {
      var name := body.car.cdr.car;
      PeakOfDefine(g, body, d);
      var m, mid := DefineSim(p, b, c, all, locals, body, d, st, fuel);
      match EvalExpr(p, g, locals, body.car.cdr.cdr.car, fuel)
      case Val(v) =>
        SettingDefine(p, b, c, all, locals, name, v, fuel);
        var k;
        k, post := BodySim(p, b, c, all, locals[name := v], body.cdr, d + 1, mid, fuel);
        assert mid.stack[..Base(st.frames)] == st.stack[..Base(st.frames)];
        EndsLater(p, b, own, st, m, mid.envs[..mid.env], mid, EvalBody(p, g, locals, body, fuel), fuel, k, post, fuel);
        n := m + k;
      case Error => n, post := m, mid;
      case Timeout => n, post := m, mid;
      case Unclaimed => n, post := 0, st;
    } else {
      n, post := SequenceSim(p, b, c, all, locals, body, d, st, fuel);
      NoSteps(b, st, |st.frames|);
      EndsLater(p, b, own, st, 0, st.envs, st, EvalSequence(p, g, locals, body, fuel), fuel, n, post, fuel);
    }
  }

  // ---------- applying a closure that is not compiled ----------

  lemma {:induction false} BindArgsKeys(vars: map<Value, Value>, params: Value, args: seq<Value>)
    requires |args| == ListLength(params)
    ensures BindArgs(vars, params, args).Keys == vars.Keys + ParamSet(params)
    decreases params
  {
    if params.Pair? { BindArgsKeys(vars[params.car := args[0]], params.cdr, args[1..]); }
  }

  lemma {:induction false} BindArgsPlain(p: Program, vars: map<Value, Value>, params: Value, args: seq<Value>)
    requires |args| == ListLength(params) && LocalsPlain(p, vars) && AllPlain(p, args)
    ensures LocalsPlain(p, BindArgs(vars, params, args))
    decreases params
  {
    if params.Pair? { BindArgsPlain(p, vars[params.car := args[0]], params.cdr, args[1..]); }
  }

  /** Counting a call keeps the table the program's, whether or not it compiles. */
  lemma CountCallConforms(p: Program, id: nat, st: VM)
    requires WfProgram(p) && Conforms(p, st) && FIRST_FREE <= id < |p.clos|
    requires !p.clos[id].compiled && !st.clos[id].compiled
    ensures CountCall(st.envs, st.clos[id]).Warm?
    ensures ClosureConforms(p, id, CountCall(st.envs, st.clos[id]).clos)
  {
    var c := p.clos[id];
    assert ClosureConforms(p, id, st.clos[id]);
    FlattenExtends(p.envs, st.envs, c.env);
    GenTopScopeCorrect(p, id);
    WfBodyHasNames(p, Globals(p, id), LocalNames(Globals(p, id), c.args, c.definition), ParamSet(c.args), c.definition);
  }

  /** The state in which the body starts: counted, perhaps compiled, in an environment of its own. */
  lemma InterpretedEntry(p: Program, st: VM, id: nat, args: seq<Value>) returns (st1: VM)
    requires WfProgram(p) && Conforms(p, st) && FIRST_FREE <= id < |p.clos|
    requires !p.clos[id].compiled && !st.clos[id].compiled && |args| == ListLength(p.clos[id].args)
    requires |st.stack| == Base(st.frames) + st.argnum && st.argnum == 1 + |args|
    requires st.stack[Base(st.frames)] == Closure(id) && st.stack[Base(st.frames) + 1..] == args
    ensures st1 == CallApply(st) && CountCall(st.envs, st.clos[id]).Warm?
    ensures st1.clos == st.clos[id := CountCall(st.envs, st.clos[id]).clos]
    ensures var c := p.clos[id];
      st1 == st.(closure := id, mode := Interpreted, clos := st1.clos, env := |st.envs|, ptr := c.definition,
                 envs := st.envs + [EnvFrame(BindArgs(map[], c.args, args), Some(c.env))],
                 stack := st.stack[..Base(st.frames)] + [Closure(RETURN_LAST)], argnum := 1)
  {
    hide CountCall, BindArgs, WfProgram;
    assert ClosureConforms(p, id, st.clos[id]);
    CountCallConforms(p, id, st);
    ClosureEnv(p, id);
    st1 := CallApply(st);
    assert st1 == EnterInterpreted(st, id);
  }

  lemma ClosureEnv(p: Program, id: nat)
    requires WfProgram(p) && FIRST_FREE <= id < |p.clos| && !p.clos[id].compiled
    ensures WfClosure(p, id) && p.clos[id].env < |p.envs|
  {
  }

  /** It walks the body with the parameters bound, in a machine that is still the program's. */
  lemma InterpretedStarts(p: Program, st: VM, id: nat, args: seq<Value>, st1: VM)
    requires WfProgram(p) && Conforms(p, st) && FIRST_FREE <= id < |p.clos| && st.status.Running?
    requires !p.clos[id].compiled && !st.clos[id].compiled && |args| == ListLength(p.clos[id].args)
    requires |st.stack| == Base(st.frames) + st.argnum && CountCall(st.envs, st.clos[id]).Warm?
    requires st1.clos == st.clos[id := CountCall(st.envs, st.clos[id]).clos]
    requires var c := p.clos[id];
      st1 == st.(closure := id, mode := Interpreted, clos := st1.clos, env := |st.envs|, ptr := c.definition,
                 envs := st.envs + [EnvFrame(BindArgs(map[], c.args, args), Some(c.env))],
                 stack := st.stack[..Base(st.frames)] + [Closure(RETURN_LAST)], argnum := 1)
    ensures Walking(p, p.clos[id].env, BindArgs(map[], p.clos[id].args, args), st1) && |p.envs| <= st1.env
    ensures st1.envs[..st1.env] == st.envs && st1.stack[Base(st.frames)] == Closure(RETURN_LAST)
  {
    hide CountCall, BindArgs, WfProgram;
    CountCallConforms(p, id, st);
    ClosureEnv(p, id);
    assert st1.envs[..st1.env] == st.envs;
    CountedConforms(p, st, id, CountCall(st.envs, st.clos[id]).clos, st1);
  }

  lemma CountedConforms(p: Program, st: VM, id: nat, c: Clos, post: VM)
    requires Conforms(p, st) && id < |p.clos| && ClosureConforms(p, id, c)
    requires post.clos == st.clos[id := c] && Extends(st.envs, post.envs)
    ensures Conforms(p, post)
  {
    ExtendsTwice(p.envs, st.envs, post.envs);
  }

  lemma EntrySetting(p: Program, b: nat, id: nat, args: seq<Value>, fuel: nat)
    requires WfProgram(p) && Bounded(p, b) && (fuel > 0 ==> ApplyClaim(p, b, fuel - 1))
    requires id < |p.clos| && WfClosure(p, id) && |args| == ListLength(p.clos[id].args) && AllPlain(p, args)
    ensures var c, g := p.clos[id], Globals(p, id);
      var locals := BindArgs(map[], c.args, args);
      && Setting(p, b, c.env, LocalNames(g, c.args, c.definition), locals, fuel)
      && locals.Keys == ParamSet(c.args)
  {
    hide ApplyClaim, Bounded, WfProgram, WfBody, Plain;
    BindArgsKeys(map[], p.clos[id].args, args);
    BindArgsPlain(p, map[], p.clos[id].args, args);
  }

  /** An interpreted application, the one that compiles included, runs as it means. */
  lemma InterpretedApply(p: Program, b: nat, st: VM, id: nat, args: seq<Value>, fuel: nat)
    requires WfProgram(p) && Bounded(p, b) && (fuel > 0 ==> ApplyClaim(p, b, fuel - 1))
    requires ApplyReady(p, b, st, Closure(id), args) && !st.clos[id].compiled
    ensures ApplyEnds(p, b, st, Closure(id), args, fuel)
  {
    hide ApplyClaim, Step, CallApply, WfProgram, Setting, Walking, Bounded, Ends;
    assert ClosureConforms(p, id, st.clos[id]);
    var c := p.clos[id];
    if |args| != ListLength(c.args) {
      UnclaimedEnds(p, b, st, Closure(id), args, fuel);
    } else {
      var g := Globals(p, id);
      var all, locals := LocalNames(g, c.args, c.definition), BindArgs(map[], c.args, args);
      ClosureEnv(p, id);
      BoundedBody(p, b, id);
      EntrySetting(p, b, id, args, fuel);
      var st1 := InterpretedEntry(p, st, id, args);
      InterpretedStarts(p, st, id, args, st1);
      var n, post := BodySim(p, b, c.env, all, locals, c.definition, ListLength(c.args) + 1, st1, fuel);
      assert Apply(p, Closure(id), args, fuel) == EvalBody(p, g, locals, c.definition, fuel);
      assert Ends(p, b, st.envs, CallApply(st), Apply(p, Closure(id), args, fuel), fuel, n, post);
    }
  }

  lemma UnclaimedEnds(p: Program, b: nat, st: VM, f: Value, args: seq<Value>, fuel: nat)
    requires Apply(p, f, args, fuel) == Unclaimed
    ensures ApplyEnds(p, b, st, f, args, fuel)
  {
    hide Apply, CallApply;
    assert Ends(p, b, st.envs, CallApply(st), Unclaimed, fuel, 0, st);
  }
}
