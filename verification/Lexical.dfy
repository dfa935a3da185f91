/** Lexical scope: a closure's body sees its arguments, and otherwise what was in sight where the closure was made. */
module Lexical {
  import opened Values
  import opened EnvStore
  import opened Compiler
  import opened Machine
  import opened FrameDiscipline
  import opened Activations
  import opened InterpreterProof
  import opened Contexts
  import opened Counting
  import opened Forms

  ghost predicate IsParam(params: Value, s: Value) {
    exists i: nat :: i < ListLength(params) && Nth(params, i) == s
  }

  /** No later parameter has the same name. */
  ghost predicate LastAt(params: Value, i: nat)
    requires i < ListLength(params)
  {
    forall j | i < j < ListLength(params) :: Nth(params, j) != Nth(params, i)
  }

  /** Parameters are bound to their arguments, and every other symbol to what `env` binds it to. */
  ghost predicate Sees(inner: seq<EnvFrame>, at: nat, envs: seq<EnvFrame>, env: nat, params: Value, args: seq<Value>) {
    && |args| == ListLength(params)
    && (forall i | 0 <= i < |args| && LastAt(params, i) :: Lookup(inner, at, Nth(params, i)) == Some(args[i]))
    && forall s | !IsParam(params, s) :: Lookup(inner, at, s) == Lookup(envs, env, s)
  }

  lemma {:induction false} BindArgsKeep(vars: map<Value, Value>, params: Value, args: seq<Value>, s: Value)
    requires |args| == ListLength(params)
    ensures s in BindArgs(vars, params, args) <==> s in vars || IsParam(params, s)
    ensures s in vars && !IsParam(params, s) ==> BindArgs(vars, params, args)[s] == vars[s]
    decreases params
  {
    if params.Pair? {
      BindArgsKeep(vars[params.car := args[0]], params.cdr, args[1..], s);
      ParamsOf(params, s);
    }
  }

  lemma ParamsOf(params: Value, s: Value)
    requires params.Pair?
    ensures IsParam(params, s) <==> s == params.car || IsParam(params.cdr, s)
  {
    if s == params.car { assert Nth(params, 0) == s; }
    if i: nat :| i < ListLength(params.cdr) && Nth(params.cdr, i) == s { assert Nth(params, i + 1) == s; }
    if i: nat :| i < ListLength(params) && Nth(params, i) == s {
      if i > 0 { assert Nth(params.cdr, i - 1) == s; }
    }
  }

  lemma {:induction false} BindArgsAt(vars: map<Value, Value>, params: Value, args: seq<Value>, i: nat)
    requires |args| == ListLength(params) && i < |args| && LastAt(params, i)
    ensures Nth(params, i) in BindArgs(vars, params, args) && BindArgs(vars, params, args)[Nth(params, i)] == args[i]
    decreases params
  {
    var more := vars[params.car := args[0]];
    if i == 0 {
      forall j: nat | j < ListLength(params.cdr) ensures Nth(params.cdr, j) != params.car {
        assert Nth(params, j + 1) == Nth(params.cdr, j);
      }
      BindArgsKeep(more, params.cdr, args[1..], params.car);
    } else {
      forall j | i - 1 < j < ListLength(params.cdr) ensures Nth(params.cdr, j) != Nth(params.cdr, i - 1) {
        assert Nth(params, j + 1) == Nth(params.cdr, j);
      }
      BindArgsAt(more, params.cdr, args[1..], i - 1);
    }
  }

  /** A call that goes through the tree walker starts on the body, in an environment that sees the arguments and the
      closure's own environment. */
  lemma BodySees(st: VM, id: nat)
    requires Applies(st, id) && CallApply(st).status.Running?
    ensures var c, next, args := st.clos[id], CallApply(st), st.stack[|st.stack| - st.argnum + 1..];
      && next.mode == Interpreted && next.ptr == c.definition
      && Sees(next.envs, next.env, st.envs, c.env, c.args, args)
  {
    hide CountCall, BindArgs;
    var c, next, args := st.clos[id], CallApply(st), st.stack[|st.stack| - st.argnum + 1..];
    var vars := BindArgs(map[], c.args, args);
    assert next.envs == st.envs + [EnvFrame(vars, Some(c.env))] && next.env == |st.envs|;
    InFrame(st.envs, c.env, vars);
    forall i | 0 <= i < |args| && LastAt(c.args, i)
      ensures Lookup(next.envs, next.env, Nth(c.args, i)) == Some(args[i])
    {
      BindArgsAt(map[], c.args, args, i);
    }
    forall s | !IsParam(c.args, s) ensures Lookup(next.envs, next.env, s) == Lookup(st.envs, c.env, s) {
      BindArgsKeep(map[], c.args, args, s);
    }
  }

  /** Looking something up in a frame put in front of an environment. */
  lemma InFrame(envs: seq<EnvFrame>, env: nat, vars: map<Value, Value>)
    requires env < |envs|
    ensures var more := envs + [EnvFrame(vars, Some(env))];
      forall s :: Lookup(more, |envs|, s) == if s in vars then Some(vars[s]) else Lookup(envs, env, s)
  {
    var more := envs + [EnvFrame(vars, Some(env))];
    forall s ensures Lookup(more, |envs|, s) == if s in vars then Some(vars[s]) else Lookup(envs, env, s) {
      ExtendedFinds(envs, more, env, s);
    }
  }

  /** The machine, some time after closure `id` was made, calls it in the tree walker and the call goes through. */
  ghost predicate CallsLater(later: VM, id: nat) {
    AppliedBy(later).Some? && Applies(AppliedBy(later).value, id) && Step(later).status.Running?
  }

  function Arguments(pre: VM): seq<Value>
    requires 0 < pre.argnum <= |pre.stack|
  {
    pre.stack[|pre.stack| - pre.argnum + 1..]
  }

  /** The call walks `body` and sees its arguments, and otherwise what `env` binds at that moment. */
  ghost predicate BodyInScope(later: VM, id: nat, env: nat, params: Value, body: Value)
    requires CallsLater(later, id)
  {
    var next := Step(later);
    && next.mode == Interpreted && next.ptr == body
    && Sees(next.envs, next.env, later.envs, env, params, Arguments(AppliedBy(later).value))
  }

  lemma FreshInScope(st: VM, id: nat, n: nat, env: nat, params: Value, body: Value)
    requires id < |st.clos| && st.clos[id] == Clos(body, params, env, false, 0, [], [])
    requires CallsLater(After(st, n), id)
    ensures BodyInScope(After(st, n), id, env, params, body)
  {
    hide Step, After, CallApply, Sees;
    var later := After(st, n);
    CompiledAfterThree(st, id, n);
    StepApplies(later);
    BodySees(AppliedBy(later).value, id);
  }

  /** Lexical scope. Evaluate `(lambda params . body)` in any state, and call the value, at any later time and from
      anywhere, in the tree walker: the body sees its arguments, and every other symbol as the environment of the
      `lambda` binds it then. */
  lemma LambdaInScope(st: VM, e: Value, params: Value, body: Value, n: nat)
    requires AtForm(st, e, Lambda) && e.cdr == Pair(params, body)
    requires (params.Pair? || params.Null?) && body.Pair?
    requires CallsLater(After(st, 1 + n), |st.clos|)
    ensures GivesIn(st, Closure(|st.clos|), 1)
    ensures BodyInScope(After(st, 1 + n), |st.clos|, st.env, params, body)
  {
    hide Step, After, Above, Sees, BodyInScope, CallsLater;
    LambdaReturns(st, e, params, body);
    AfterSum(st, 1, n);
    FreshInScope(After(st, 1), |st.clos|, n, st.env, params, body);
  }

  /** The same of `(define (f . params) . body)`, which binds f to such a closure. */
  lemma FunctionInScope(st: VM, e: Value, kind: RunType, f: Value, params: Value, body: Value, n: nat)
    requires AtForm(st, e, kind) && Binds(kind) && e.cdr == Pair(Pair(f, params), body) && f.Sym?
    requires st.env < |st.envs| && CallsLater(After(st, 4 + n), |st.clos|)
    ensures Lookup(After(st, 4).envs, st.env, f) == Some(Closure(|st.clos|))
    ensures BodyInScope(After(st, 4 + n), |st.clos|, st.env, params, body)
  {
    hide Step, After, Above, Sees, BodyInScope, CallsLater, Bound;
    FunctionDefined(st, e, kind, f, params, body);
    BoundOnStack(kind, st.envs, st.env, f, Closure(|st.clos|));
    AfterSum(st, 4, n);
    FreshInScope(After(st, 4), |st.clos|, n, st.env, params, body);
  }
}
