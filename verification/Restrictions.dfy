/** Why the simulated fragment stops where it does: what the engines do just outside it. */
module Restrictions {
  import opened Values
  import opened EnvStore
  import opened Compiler
  import opened Machine
  import opened Semantics
  import opened WellFormed
  import opened ScopeProof
  import opened FrameDiscipline
  import opened Activations
  import opened Peaks
  import opened InterpreterProof
  import opened CodeLayout
  import opened Layout
  import opened CompiledProof

  // ---------- begin outside tail position ----------

  lemma BeginIsItsList(j: Job, e: Value, d: nat, ip: nat)
    requires j.id < |j.p.clos| && IsStatement(j.G(), e, Begin)
    ensures CompElem(j.G(), j.t, e, false, d, ip) == CompList(j.G(), j.t, e.cdr, false, d, ip)
    ensures PeakElem(j.G(), e, d) == PeakList(j.G(), e.cdr, d)
  {
  }

  /** Code for a `begin` outside tail position pushes the value of every expression, while the compiler counts one:
      the count is right if and only if there is one expression. */
  lemma BeginPushesAll(j: Job, locals: map<Value, Value>, e: Value, st: VM, fuel: nat) returns (n: nat, post: VM)
    requires JobSetting(j, locals, fuel) && Executing(j, locals, st)
    requires IsStatement(j.G(), e, Begin)
    requires WfList(j.p, j.G(), j.all, locals.Keys, e.cdr) && ListCovered(j.G(), j.t, e.cdr)
    requires PeakElem(j.G(), e, st.argnum) <= j.b
    requires At(j.code, st.ip, CompElem(j.G(), j.t, e, false, st.argnum, st.ip))
    requires EvalList(j.p, j.G(), locals, e.cdr, fuel).Val?
    ensures GoesOn(j.p, j.b, st, EvalList(j.p, j.G(), locals, e.cdr, fuel), fuel, n, post)
    ensures post.ip == j.ElemEnd(e, false, st.argnum, st.ip)
    ensures post.argnum == st.argnum + ListLength(e.cdr)
    ensures post.argnum == st.argnum + 1 <==> e.cdr.Pair? && e.cdr.cdr == Null
  {
    hide CompElem, CompList, PeakElem, PeakList, At, Runs, WfExpr, Conforms, Executing;
    BeginIsItsList(j, e, st.argnum, st.ip);
    n, post := CompiledProof.ListSim(j, locals, e.cdr, st, fuel);
    EvalListLength(j.p, j.G(), locals, e.cdr, fuel);
    if e.cdr.Pair? { assert WfList(j.p, j.G(), j.all, locals.Keys, e.cdr.cdr); }
  }

  /** A proper list of symbols and constants. */
  predicate IsAtomList(list: Value) {
    if list.Pair? then !list.car.Pair? && IsAtomList(list.cdr) else list == Null
  }

  function Append(list: Value, rest: Value): Value {
    if list.Pair? then Pair(list.car, Append(list.cdr, rest)) else rest
  }

  function AtomCode(g: Bindings, t: Table, list: Value): seq<Instr> {
    if list.Pair? then [CompAtom(g, t, list.car)] + AtomCode(g, t, list.cdr) else []
  }

  lemma {:induction false} AtomListCode(g: Bindings, t: Table, list: Value, d: nat, ip: nat)
    requires IsAtomList(list)
    ensures CompList(g, t, list, false, d, ip) == AtomCode(g, t, list)
  {
    if list.Pair? {
      assert CompElem(g, t, list.car, false, d, ip) == [CompAtom(g, t, list.car)];
      AtomListCode(g, t, list.cdr, d + 1, ip + 1);
    }
  }

  lemma {:induction false} AppendCode(g: Bindings, t: Table, list: Value, rest: Value, d: nat, ip: nat)
    requires IsAtomList(rest)
    ensures CompList(g, t, Append(list, rest), false, d, ip) ==
            CompList(g, t, list, false, d, ip) + AtomCode(g, t, rest)
    decreases list
  {
    hide CompElem;
    if list.Pair? {
      var first := CompElem(g, t, list.car, false, d, ip);
      AppendCode(g, t, list.cdr, rest, d + 1, ip + |first|);
    } else {
      AtomListCode(g, t, rest, d, ip);
    }
  }

  /** So `(begin a b ...)` followed by symbols and constants `c ...` is compiled, as operands, to the code of
      `a b ... c ...`. Calls after it would get another operand. */
  lemma BeginSplices(g: Bindings, t: Table, begin: Value, list: Value, rest: Value, d: nat, ip: nat)
    requires IsToken(g, begin, Begin) && IsAtomList(rest)
    ensures CompList(g, t, Pair(Pair(begin, list), rest), false, d, ip) ==
            CompList(g, t, Append(list, rest), false, d, ip)
  {
    var first := CompElem(g, t, Pair(begin, list), false, d, ip);
    assert first == CompList(g, t, list, false, d, ip);
    assert CompList(g, t, Pair(Pair(begin, list), rest), false, d, ip) ==
           first + CompList(g, t, rest, false, d + 1, ip + |first|);
    AtomListCode(g, t, rest, d + 1, ip + |first|);
    AppendCode(g, t, list, rest, d, ip);
  }

  // ---------- the number of arguments ----------

  /** An interpreted call fails if and only if the number of arguments is wrong; a compiled one never looks. */
  lemma OnlyInterpretedCallsCount(st: VM, id: nat)
    requires 0 < st.argnum <= |st.stack| && st.stack[|st.stack| - st.argnum] == Closure(id) && st.status.Running?
    requires id < |st.clos| && st.clos[id].env < |st.envs| && CountCall(st.envs, st.clos[id]).Warm?
    ensures CallApply(st).status.Failed? <==> !st.clos[id].compiled && st.argnum != 1 + ListLength(st.clos[id].args)
    ensures !CallApply(st).status.Failed? ==> CallApply(st).status.Running?
  {
  }

  // ---------- defines ----------

  /** A tree with a `define`, or with a symbol bound nowhere, at the head of a list or among its elements. */
  predicate Refused(g: Bindings, known: set<Value>, v: Value) {
    && v.Pair?
    && (Refused(g, known, v.cdr) ||
        if v.car.Sym? then !IsToken(g, v.car, If) && (IsToken(g, v.car, Define) || v.car !in known + g.Keys)
        else Refused(g, known, v.car))
  }

  /** The same of what follows the names of the leading defines. */
  predicate BodyRefused(g: Bindings, known: set<Value>, body: Value)
    requires DefinesHaveNames(g, body)
    decreases body
  {
    if body.Pair? && IsStatement(g, body.car, Define) then
      Refused(g, known, body.car.cdr.cdr) || BodyRefused(g, known, body.cdr)
    else Refused(g, known, body)
  }

  ghost predicate Knows(g: Bindings, known: set<Value>, s: Scope) {
    known <= s.table.Keys <= known + g.Keys
  }

  lemma {:induction false} SubScopeRefuses(g: Bindings, known: set<Value>, s: Scope, v: Value)
    requires Knows(g, known, s)
    ensures GenSubScope(g, s, v) == None <==> Refused(g, known, v)
    ensures GenSubScope(g, s, v).Some? ==> Knows(g, known, GenSubScope(g, s, v).value)
    decreases v
  {
    if v.Pair? {
      var first :=
        if !v.car.Sym? then GenSubScope(g, s, v.car)
        else if IsToken(g, v.car, If) then Some(s)
        else if IsToken(g, v.car, Define) then None
        else HandleSymbol(g, s, v.car);
      if !v.car.Sym? { SubScopeRefuses(g, known, s, v.car); }
      if first.Some? { SubScopeRefuses(g, known, first.value, v.cdr); }
    }
  }

  lemma {:induction false} BodyScopeRefuses(g: Bindings, known: set<Value>, s: Scope, body: Value)
    requires DefinesHaveNames(g, body) && Knows(g, known, s)
    ensures GenBodyScope(g, s, body) == None <==> BodyRefused(g, known, body)
    decreases body
  {
    if body.Pair? && IsStatement(g, body.car, Define) {
      SubScopeRefuses(g, known, s, body.car.cdr.cdr);
      var first := GenSubScope(g, s, body.car.cdr.cdr);
      if first.Some? { BodyScopeRefuses(g, known, first.value, body.cdr); }
    } else {
      SubScopeRefuses(g, known, s, body);
    }
  }

  /** Counting a call fails if and only if it is the third or later and the body, past the names of its leading
      defines, holds a `define` or a symbol that is neither a local nor bound outside: the tree walker runs a closure
      with a `define` further on twice, and the call that should compile it is an error. */
  lemma ThirdCallRefuses(envs: seq<EnvFrame>, c: Clos)
    requires DefinesHaveNames(Flatten(envs, c.env), c.definition)
    ensures var g := Flatten(envs, c.env);
      CountCall(envs, c).WarmFailure? <==>
      c.numCalls >= 2 && BodyRefused(g, LocalNames(g, c.args, c.definition), c.definition)
  {
    var g := Flatten(envs, c.env);
    var names := LocalNames(g, c.args, c.definition);
    var t := AddParams(map[], c.args, 1);
    AddParamsCorrect(map[], {}, c.args, 1);
    assert {} + ParamSet(c.args) == ParamSet(c.args);
    AddDefinesCorrect(g, t, ParamSet(c.args), c.definition, ListLength(c.args) + 1);
    BodyScopeRefuses(g, names, Scope(StackSlots(g, c.args, c.definition), []), c.definition);
  }

  /** `s` is an element of the tree, at any depth. */
  predicate Mentions(v: Value, s: Value) {
    v.Pair? && (v.car == s || Mentions(v.car, s) || Mentions(v.cdr, s))
  }

  lemma {:induction false} UnboundIsRefused(g: Bindings, known: set<Value>, v: Value, s: Value)
    requires s.Sym? && s !in known + g.Keys && Mentions(v, s)
    ensures Refused(g, known, v)
  {
    if v.car != s {
      if Mentions(v.car, s) { UnboundIsRefused(g, known, v.car, s); } else { UnboundIsRefused(g, known, v.cdr, s); }
    }
  }

  /** `(define (h . params) . inner)` in front of a body is analysed as if `inner` belonged to the body itself: the
      third call is an error as soon as `inner` uses a parameter whose name nothing outside binds. */
  lemma NestedFunctionRefused(envs: seq<EnvFrame>, c: Clos, params: Value, inner: Value, s: Value)
    requires var g := Flatten(envs, c.env);
      && c.definition.Pair? && IsStatement(g, c.definition.car, Define)
      && c.definition.car.cdr.Pair? && c.definition.car.cdr.car.Pair? && DefinesHaveNames(g, c.definition.cdr)
      && c.definition.car.cdr.car.cdr == params && c.definition.car.cdr.cdr == inner
      && s.Sym? && s in ParamSet(params) && Mentions(inner, s)
      && s !in g && s !in LocalNames(g, c.args, c.definition)
    ensures CountCall(envs, c).WarmFailure? <==> c.numCalls >= 2
  {
    var g := Flatten(envs, c.env);
    UnboundIsRefused(g, LocalNames(g, c.args, c.definition), inner, s);
    ThirdCallRefuses(envs, c);
  }

  // ---------- the name of if ----------

  /** The code of `((lambda params s) ...)` returns the argument if and only if `s` names neither `if` nor `define`
      where the closure was made: else it returns the symbol itself, or is refused. The tree walker returns the
      argument. */
  lemma HiddenIf(g: Bindings, params: Value, s: Value)
    requires s.Sym? && s in ParamSet(params)
    ensures var k := AddParams(map[], params, 1);
      && s in k && k[s].Parameter?
      && CompileClosure(g, params, Pair(s, Null)) ==
           if IsToken(g, s, Define) then ScopeFailure
           else Code([if IsToken(g, s, If) then PushConst(s) else StackRef(k[s].location), ReturnLast], [])
  {
    var k := AddParams(map[], params, 1);
    AddParamsCorrect(map[], {}, params, 1);
    assert {} + ParamSet(params) == ParamSet(params);
    ParamsAreParameters(map[], params, 1);
    var scope := Scope(k, []);
    assert GenSubScope(g, scope, Null) == Some(scope);
    assert GenTopScope(g, params, Pair(s, Null)) == if IsToken(g, s, Define) then None else Some(scope);
    var d := ListLength(params) + 1;
    assert CompElem(g, k, s, true, d, 0) == [CompAtom(g, k, s)];
    assert CompList(g, k, Null, true, d + 1, 1) == [];
    assert CompList(g, k, Pair(s, Null), true, d, 0) == [CompAtom(g, k, s)];
    assert ListHasArms(g, Null) && ElemHasArms(g, s) && |NodesOf([])| == 0;
  }

  lemma {:induction false} ParamsAreParameters(t: Table, params: Value, loc: nat)
    requires forall v | v in t :: t[v].Parameter?
    ensures forall v | v in AddParams(t, params, loc) :: AddParams(t, params, loc)[v].Parameter?
    decreases params
  {
    if params.Pair? { ParamsAreParameters(t[params.car := Parameter(loc)], params.cdr, loc + 1); }
  }

  // ---------- tail calls with the wrong number of arguments ----------

  const SELF := Sym("f")
  const SELF_NODE := NodeRef(0, SELF)
  const LOOP_CODE: seq<Instr> := [ClosureRef(0), ClosureRef(0), DoTailCall(1), ReturnLast]

  /** `(define (f) (f f))`, compiled. */
  const LOOP: Clos := Clos(Pair(Pair(SELF, Pair(SELF, Null)), Null), Null, 0, true, 3, LOOP_CODE, [SELF_NODE])

  /** It runs with `k` slots, all of them itself. */
  function Looping(k: nat): VM {
    VM(seq(k, _ => Closure(FIRST_FREE)), k, [], FIRST_FREE, Mode.Compiled, 0, Null, 0, SINGLETONS + [LOOP],
       [EnvFrame(map[SELF := Closure(FIRST_FREE)], None)], Running)
  }

  lemma SelfHandled(g: Bindings, s0: Scope, s1: Scope)
    requires SELF in g && g[SELF].node == SELF_NODE && s0 == Scope(map[], [])
    requires s1 == Scope(map[SELF := Captured(0)], [ClosedVar(SELF, SELF_NODE)])
    ensures HandleSymbol(g, s0, SELF) == Some(s1) && HandleSymbol(g, s1, SELF) == Some(s1)
  {
    assert FindClosed([], SELF) == None;
    assert s0.table[SELF := Captured(0)] == s1.table;
    assert s0.closed + [ClosedVar(SELF, SELF_NODE)] == s1.closed;
  }

  lemma LoopIsCompiled()
    ensures var st := Looping(1);
      CompileClosure(Flatten(st.envs, 0), LOOP.args, LOOP.definition) == Code(LOOP.code, LOOP.closed)
  {
    var g := Flatten(Looping(1).envs, 0);
    assert g == map[SELF := Binding(SELF_NODE, Closure(FIRST_FREE))];
    var s0, s1 := Scope(map[], []), Scope(map[SELF := Captured(0)], [ClosedVar(SELF, SELF_NODE)]);
    var call := Pair(SELF, Pair(SELF, Null));
    SelfHandled(g, s0, s1);
    assert GenSubScope(g, s1, Null) == Some(s1);
    assert GenSubScope(g, s1, Pair(SELF, Null)) == Some(s1);
    assert GenSubScope(g, s0, call) == Some(s1);
    assert GenSubScope(g, s0, LOOP.definition) == Some(s1);
    assert GenTopScope(g, Null, LOOP.definition) == Some(s1);
    var t := s1.table;
    AtomListCode(g, t, call, 1, 0);
    assert AtomCode(g, t, Pair(SELF, Null)) == [ClosureRef(0)] + AtomCode(g, t, Null);
    assert CompList(g, t, call, false, 1, 0) == [ClosureRef(0), ClosureRef(0)];
    assert CompElem(g, t, call, true, 1, 0) == [ClosureRef(0), ClosureRef(0), DoTailCall(1)];
    assert CompList(g, t, Null, true, 2, 3) == [];
    assert CompList(g, t, LOOP.definition, true, 1, 0) == [ClosureRef(0), ClosureRef(0), DoTailCall(1)];
    assert ListHasArms(g, LOOP.definition);
  }

  /** Once around. */
  lemma LoopTurns(k: nat)
    requires k > 0
    ensures Step(Step(Step(Looping(k)))) == Looping(k + 1)
  {
    var st, f := Looping(k), Closure(FIRST_FREE);
    StepClosureRef(st, 0, SELF_NODE);
    var st1 := Step(st);
    StepClosureRef(st1, 0, SELF_NODE);
    var st2 := Step(st1);
    assert st2.stack == seq(k + 2, _ => f);
    StepDoTailCall(st2, 1);
    assert st2.stack[1..] == seq(k + 1, _ => f);
    assert st2.stack[..0] + st2.stack[1..] == seq(k + 1, _ => f);
  }

  /** Tail calls that pass more arguments than are taken do not run in bounded space: each turn of this loop leaves
      one slot more than the one before. */
  lemma {:induction false} WrongCountsGrow(n: nat, k: nat)
    requires k > 0
    ensures After(Looping(k), 3 * n) == Looping(k + n)
    decreases n
  {
    hide Step;
    if n > 0 {
      LoopTurns(k);
      WrongCountsGrow(n - 1, k + 1);
      var st := Looping(k);
      assert After(st, 3 * n) == After(Step(st), 3 * n - 1) == After(Step(Step(st)), 3 * n - 2)
          == After(Step(Step(Step(st))), 3 * n - 3);
    }
  }

  // ---------- an empty list by itself ----------

  /** The tree walker returns a constant that is a test or a branch if and only if it is not the empty list, which
      it takes for an application of nothing. Threaded code pushes any constant. */
  lemma EmptyListIsNoConstant(st: VM, v: Value)
    requires AtPtr(st, v) && !v.Pair? && !v.Sym? && st.argnum == 0 && |st.stack| == Base(st.frames)
    ensures Returned(st, v, Step(st)) <==> v != Null
    ensures v == Null ==> Step(st).status.Undefined?
  {
    if v == Null { StepApply(st); } else { StepAtom(st, v); }
  }

  // ---------- locals named like special forms ----------

  /** The compiler asks only the closure's environment whether a list is a special form; the tree walker asks the
      innermost binding of its head. They agree if and only if no local hides the form. */
  lemma HiddenForms(p: Program, c: nat, locals: map<Value, Value>, st: VM, e: Value, kind: RunType)
    requires Walking(p, c, locals, st) && e.Pair? && e.car.Sym? && LocalsPlain(p, locals)
    ensures var g := Flatten(p.envs, c);
      (IsStatement(g, e, kind) <==> Lookup(st.envs, st.env, e.car) == Some(Run(kind)))
      <==> !(e.car in locals && IsToken(g, e.car, kind))
  {
    WalkingLookup(p, c, locals, st, e.car);
    if e.car in locals { assert Plain(p, locals[e.car]); }
  }

  /** At a list that the compiler takes for a form, the tree walker runs the form if no local hides its name, and
      otherwise starts an application of the local's value. */
  lemma HiddenFormIsApplied(p: Program, c: nat, locals: map<Value, Value>, st: VM, e: Value, kind: RunType)
    requires Walking(p, c, locals, st) && LocalsPlain(p, locals) && st.argnum == 0 && st.ptr == e
    requires IsStatement(Flatten(p.envs, c), e, kind) && IsSpecialForm(Run(kind))
    ensures Step(st) ==
      if e.car in locals then Push(st.(ptr := e.cdr), locals[e.car])
      else HandleSpecialForm(st.(ptr := e.cdr), kind, e.cdr)
  {
    WalkingLookup(p, c, locals, st, e.car);
    hide HandleSpecialForm;
    if e.car in locals {
      assert Plain(p, locals[e.car]);
      StepSymbol(st, e.car, e.cdr, locals[e.car]);
    } else {
      StepSpecial(st, e.car, e.cdr, kind);
    }
  }
}
