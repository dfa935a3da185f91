/** Counting calls: when compiled code is installed, and what code it is. */
module Counting {
  import opened Values
  import opened EnvStore
  import opened Compiler
  import opened Machine
  import opened FrameDiscipline

  /** The machine is about to apply closure `id`, which is not compiled. */
  ghost predicate Applies(st: VM, id: nat) {
    && st.status.Running? && 0 < st.argnum <= |st.stack|
    && st.stack[|st.stack| - st.argnum] == Closure(id)
    && id < |st.clos| && !st.clos[id].compiled
  }

  /** Such a call, if it goes through, is counted, and compiles the closure if and only if it is the third or later;
      either way it walks the body. */
  lemma CallCounts(st: VM, id: nat)
    requires Applies(st, id) && CallApply(st).status.Running?
    ensures var c, next := st.clos[id], CallApply(st); var c' := next.clos[id];
      && next.clos == st.clos[id := c']
      && c'.numCalls == c.numCalls + 1
      && c'.definition == c.definition && c'.args == c.args && c'.env == c.env
      && (c'.compiled <==> c.numCalls >= 2)
      && (c'.compiled ==> CompileClosure(Flatten(st.envs, c.env), c.args, c.definition) == Code(c'.code, c'.closed))
      && next.mode == Interpreted && next.ptr == c.definition
  {
    hide CompileClosure, BindArgs;
  }

  // ---------- runs ----------

  /** The state that a step hands to `CallApply`, if it does. */
  ghost function AppliedBy(st: VM): Option<VM> {
    if !st.status.Running? then None
    else if st.mode == Interpreted then
      if st.ptr.Null? then Some(st) else None
    else if st.closure >= |st.clos| || st.ip >= |st.clos[st.closure].code| then None
    else
      match st.clos[st.closure].code[st.ip]
      case DoCall(arg) =>
        if arg > st.argnum || st.argnum > |st.stack| then None
        else
          var frame := Frame(st.closure, |st.stack| - st.argnum + arg, arg, SavedIp(st.ip + 1));
          Some(st.(frames := st.frames + [frame], argnum := st.argnum - arg))
      case DoTailCall(arg) =>
        if arg > st.argnum || st.argnum > |st.stack| then None
        else
          var base := |st.stack| - st.argnum;
          Some(st.(stack := st.stack[..base] + st.stack[base + arg..], argnum := st.argnum - arg, ip := 0))
      case _ => None
  }

  lemma StepApplies(st: VM)
    requires AppliedBy(st).Some?
    ensures Step(st) == CallApply(AppliedBy(st).value) && AppliedBy(st).value.clos == st.clos
    ensures AppliedBy(st).value.envs == st.envs && AppliedBy(st).value.status.Running?
  {
    hide CallApply;
  }

  ghost predicate ClosuresKept(clos: seq<Clos>, later: seq<Clos>) {
    |clos| <= |later| && forall id | 0 <= id < |clos| :: later[id] == clos[id]
  }

  /** Every other step leaves the closures there are as they are, and removes no environment. */
  lemma OtherSteps(st: VM)
    requires AppliedBy(st).None?
    ensures ClosuresKept(st.clos, Step(st).clos) && |st.envs| <= |Step(st).envs|
  {
    if st.status.Running? {
      if st.mode == Interpreted {
        OtherWalks(st);
      } else if st.closure < |st.clos| && st.ip < |st.clos[st.closure].code| {
        OtherInstructions(st, st.clos[st.closure].code[st.ip]);
      }
    }
  }

  lemma OtherInstructions(st: VM, instr: Instr)
    requires instr.DoCall? || instr.DoTailCall? ==> instr.arg > st.argnum || st.argnum > |st.stack|
    ensures Execute(st, instr).clos == st.clos && |st.envs| <= |Execute(st, instr).envs|
  {
    hide PrimOf, CallApply;
  }

  lemma OtherWalks(st: VM)
    requires !st.ptr.Null?
    ensures ClosuresKept(st.clos, StepInterpreted(st).clos) && |st.envs| <= |StepInterpreted(st).envs|
  {
    hide CallApply, Lookup, HandleMacro;
    if st.ptr.Pair? && st.ptr.car.Sym? && Lookup(st.envs, st.env, st.ptr.car).Some? {
      var v := Lookup(st.envs, st.env, st.ptr.car).value;
      if v.Rules? { MacroKeeps(st.(ptr := st.ptr.cdr), v, st.ptr); }
    }
  }

  lemma MacroKeeps(st: VM, rules: Value, form: Value)
    requires rules.Rules?
    ensures HandleMacro(st, rules, form).clos == st.clos && HandleMacro(st, rules, form).envs == st.envs
  {
  }

  /** No step removes an environment. */
  lemma {:induction false} EnvsStay(st: VM, n: nat)
    ensures |st.envs| <= |After(st, n).envs|
    decreases n
  {
    hide Step;
    if n > 0 {
      if AppliedBy(st).Some? {
        StepApplies(st);
        ApplyKeepsEnvs(AppliedBy(st).value);
      } else {
        OtherSteps(st);
      }
      EnvsStay(Step(st), n - 1);
    }
  }

  lemma ApplyKeepsEnvs(st: VM)
    ensures |st.envs| <= |CallApply(st).envs|
  {
    hide CountCall, BindArgs;
  }

  /** The step is a call of closure `id` that is counted: in the tree walker, and it goes through. */
  ghost predicate CountsCall(st: VM, id: nat) {
    AppliedBy(st).Some? && Applies(AppliedBy(st).value, id) && Step(st).status.Running?
  }

  ghost function CountedCalls(st: VM, id: nat, n: nat): nat
    decreases n
  {
    if n == 0 then 0 else (if CountsCall(st, id) then 1 else 0) + CountedCalls(Step(st), id, n - 1)
  }

  /** One step, for one closure. */
  lemma StepCounts(st: VM, id: nat)
    requires id < |st.clos| && Step(st).status.Running?
    ensures id < |Step(st).clos|
    ensures var c, c' := st.clos[id], Step(st).clos[id];
      if CountsCall(st, id) then
        && c'.numCalls == c.numCalls + 1
        && c'.definition == c.definition && c'.args == c.args && c'.env == c.env
        && !c.compiled && (c'.compiled <==> c.numCalls >= 2)
        && (c'.compiled ==> CompileClosure(Flatten(st.envs, c.env), c.args, c.definition) == Code(c'.code, c'.closed))
      else c' == c
  {
    hide Step, CallApply, CompileClosure;
    if AppliedBy(st).None? {
      OtherSteps(st);
    } else {
      var pre := AppliedBy(st).value;
      StepApplies(st);
      if Applies(pre, id) { CallCounts(pre, id); } else { OtherCalls(pre, id); }
    }
  }

  lemma OtherCalls(st: VM, id: nat)
    requires id < |st.clos| && !Applies(st, id) && st.status.Running?
    ensures |CallApply(st).clos| == |st.clos| && CallApply(st).clos[id] == st.clos[id]
  {
    hide CountCall, BindArgs;
  }

  /** The call that compiled the closure, and the code it installed. */
  ghost predicate CompiledAt(st: VM, id: nat, k: nat, c: Clos) {
    && CountsCall(After(st, k), id)
    && CompileClosure(Flatten(After(st, k).envs, c.env), c.args, c.definition) == Code(c.code, c.closed)
  }

  /** In any run of any program, a closure that had not been called is compiled if and only if three calls of it have
      been counted; no call is counted after that; and its code is what the compiler made of it at one of them. */
  lemma CompiledAfterThree(st: VM, id: nat, n: nat)
    requires id < |st.clos| && !st.clos[id].compiled && st.clos[id].numCalls == 0
    requires After(st, n).status.Running?
    ensures id < |After(st, n).clos|
    ensures var c := After(st, n).clos[id];
      && c.numCalls == CountedCalls(st, id, n) <= 3
      && (c.compiled <==> CountedCalls(st, id, n) == 3)
      && c.definition == st.clos[id].definition && c.args == st.clos[id].args && c.env == st.clos[id].env
      && (c.compiled ==> exists k: nat :: k < n && CompiledAt(st, id, k, c))
  {
    CountsAlong(st, id, n);
  }

  lemma {:induction false} CountsAlong(st: VM, id: nat, n: nat)
    requires id < |st.clos| && After(st, n).status.Running?
    requires st.clos[id].numCalls <= 3 && (st.clos[id].compiled <==> st.clos[id].numCalls == 3)
    ensures id < |After(st, n).clos|
    ensures var c := After(st, n).clos[id];
      && c.numCalls == st.clos[id].numCalls + CountedCalls(st, id, n) <= 3
      && (c.compiled <==> c.numCalls == 3)
      && c.definition == st.clos[id].definition && c.args == st.clos[id].args && c.env == st.clos[id].env
      && (st.clos[id].compiled ==> c == st.clos[id])
      && (c.compiled && !st.clos[id].compiled ==> exists k: nat :: k < n && CompiledAt(st, id, k, c))
    decreases n
  {
    hide Step, CompileClosure, CountsCall;
    if n > 0 {
      if !Step(st).status.Running? { Halted(Step(st), n - 1); }
      StepCounts(st, id);
      CountsAlong(Step(st), id, n - 1);
      var c := After(st, n).clos[id];
      if c.compiled && !st.clos[id].compiled {
        if Step(st).clos[id].compiled {
          assert After(st, 0) == st;
          assert CompiledAt(st, id, 0, c);
        } else {
          var k: nat :| k < n - 1 && CompiledAt(Step(st), id, k, c);
          assert After(st, k + 1) == After(Step(st), k);
          assert CompiledAt(st, id, k + 1, c);
        }
      }
    }
  }

  /** What is compiled stays as it is, built-in closures too. */
  lemma {:induction false} CompiledStays(st: VM, id: nat, n: nat)
    requires id < |st.clos| && st.clos[id].compiled && After(st, n).status.Running?
    ensures id < |After(st, n).clos| && After(st, n).clos[id] == st.clos[id]
    decreases n
  {
    hide Step;
    if n > 0 {
      if !Step(st).status.Running? { Halted(Step(st), n - 1); }
      StepCounts(st, id);
      CompiledStays(Step(st), id, n - 1);
    }
  }
}
