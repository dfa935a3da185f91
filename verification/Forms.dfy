/** What the special forms do, for any program: each is a run of the tree walker from the form to its value. */
module Forms {
  import opened Values
  import opened EnvStore
  import opened Compiler
  import opened Machine
  import opened Semantics
  import opened FrameDiscipline
  import opened Activations
  import opened InterpreterProof
  import opened Contexts
  import opened WellFormed
  import opened Peaks
  import opened Counting
  import opened EnvStack
  import Parser
  import Writer
  import RoundTripProof

  /** The tree walker is at the form `e`, whose head is bound to `kind`, in an activation of its own; the singleton
      closures are in their places. */
  ghost predicate AtForm(st: VM, e: Value, kind: RunType) {
    && AtPtr(st, e) && e.Pair? && e.car.Sym? && IsSpecialForm(Run(kind))
    && Lookup(st.envs, st.env, e.car) == Some(Run(kind))
    && st.argnum == 0 && |st.stack| == Base(st.frames)
    && HasSingletons(st.clos)
  }

  ghost predicate HasSingletons(clos: seq<Clos>) {
    |clos| >= FIRST_FREE && forall id | 0 <= id < FIRST_FREE :: clos[id] == SINGLETONS[id]
  }

  lemma StepForm(st: VM, e: Value, kind: RunType)
    requires AtForm(st, e, kind)
    ensures Step(st) == HandleSpecialForm(st.(ptr := e.cdr), kind, e.cdr)
  {
    StepSpecial(st, e.car, e.cdr, kind);
  }

  lemma ApplyOf(st: VM, id: nat) returns (next: VM)
    requires AtPtr(st, Null) && id < FIRST_FREE && HasSingletons(st.clos)
    requires 0 < st.argnum <= |st.stack| && st.stack[|st.stack| - st.argnum] == Closure(id)
    ensures next == st.(closure := id, mode := Mode.Compiled, ip := 0) && Step(st) == next
  {
    hide Step;
    SingletonAt(st.clos, id);
    StepApply(st);
    next := CallApply(st);
  }

  lemma SingletonAt(clos: seq<Clos>, id: nat)
    requires HasSingletons(clos) && id < FIRST_FREE
    ensures id < |clos| && clos[id] == SINGLETONS[id] && clos[id].compiled
  {
    assert SINGLETONS[0].compiled && SINGLETONS[1].compiled && SINGLETONS[2].compiled && SINGLETONS[3].compiled;
    assert id == 0 || id == 1 || id == 2 || id == 3;
  }

  lemma StepsTo(st: VM, next: VM, n: nat)
    requires Step(st) == next
    ensures After(st, n + 1) == After(next, n)
    ensures forall d :: Above(st, n + 1, d) <==> st.status.Running? && |st.frames| >= d && Above(next, n, d)
  {
    hide Step, After, Above;
    StepFirst(st, n + 1);
  }

  lemma NoMore(st: VM)
    ensures After(st, 0) == st && forall d :: Above(st, 0, d)
  {
  }

  // ---------- forms whose value is at hand ----------

  /** Return-last, applied to `v` alone. */
  lemma FinishValue(st: VM, at: VM, v: Value)
    requires |st.stack| == Base(st.frames) && st.status.Running?
    requires AtPtr(at, Null) && at.frames == st.frames && at.argnum == 2 && HasSingletons(at.clos)
    requires at.stack == st.stack + [Closure(RETURN_LAST), v]
    ensures Above(at, 2, |st.frames|) && Returned(st, v, After(at, 2))
    ensures After(at, 2).envs == at.envs && After(at, 2).clos == at.clos
  {
    var s1 := ApplyOf(at, RETURN_LAST);
    StepReturnLast(s1, v);
    hide Step;
    StepsTo(at, s1, 1);
    StepsTo(s1, Step(s1), 0);
    NoMore(Step(s1));
    assert at.stack[..Base(st.frames)] == st.stack;
    assert st.stack[..Base(st.frames)] == st.stack;
  }

  /** `(quote v)` returns `v`, whatever it is, unevaluated; no binding and no closure changes. */
  lemma QuoteReturns(st: VM, e: Value, v: Value, more: Value)
    requires AtForm(st, e, Quote) && e.cdr == Pair(v, more)
    ensures GivesIn(st, v, 3) && After(st, 3).envs == st.envs && After(st, 3).clos == st.clos
  {
    StepForm(st, e, Quote);
    var s1 := Step(st);
    assert s1.stack == st.stack + [Closure(RETURN_LAST), v];
    hide Step;
    FinishValue(st, s1, v);
    StepsTo(st, s1, 2);
  }

  /** `(syntax-rules keywords . rules)` returns the macro with those keywords and rules. */
  lemma SyntaxRulesReturns(st: VM, e: Value, keywords: Value, rules: Value)
    requires AtForm(st, e, SyntaxRules) && e.cdr == Pair(keywords, rules)
    requires (keywords.Pair? || keywords.Null?) && rules.Pair?
    ensures GivesIn(st, Rules(keywords, rules), 3) && After(st, 3).envs == st.envs && After(st, 3).clos == st.clos
  {
    StepForm(st, e, SyntaxRules);
    var s1 := Step(st);
    assert s1.stack == st.stack + [Closure(RETURN_LAST), Rules(keywords, rules)];
    hide Step;
    FinishValue(st, s1, Rules(keywords, rules));
    StepsTo(st, s1, 2);
  }

  /** `(lambda params . body)` returns a new closure over the environment where it stands. */
  lemma LambdaReturns(st: VM, e: Value, params: Value, body: Value)
    requires AtForm(st, e, Lambda) && e.cdr == Pair(params, body)
    requires (params.Pair? || params.Null?) && body.Pair?
    ensures GivesIn(st, Closure(|st.clos|), 1)
    ensures After(st, 1).envs == st.envs
    ensures After(st, 1).clos == st.clos + [Clos(body, params, st.env, false, 0, [], [])]
  {
    StepForm(st, e, Lambda);
    var made := NewClosure(st.(ptr := e.cdr), params, body);
    var valued := Push(made, Closure(|st.clos|));
    assert Step(st) == CallReturn(valued);
    hide Step;
    ReturnGives(valued, Closure(|st.clos|));
    assert valued.stack[..Base(st.frames)] == st.stack[..Base(st.frames)];
    SameReturn(st, valued, Closure(|st.clos|), CallReturn(valued));
    StepsTo(st, CallReturn(valued), 0);
    NoMore(CallReturn(valued));
  }

  // ---------- forms that bind ----------

  /** `define` and `define-syntax` bind in this environment; `set!` overwrites the innermost binding, or binds here. */
  function Bound(kind: RunType, envs: seq<EnvFrame>, env: nat, name: Value, v: Value): seq<EnvFrame>
    requires env < |envs|
  {
    if kind == SetBang then SetVarRecurse(envs, env, name, v) else SetVar(envs, env, name, v)
  }

  function Binder(kind: RunType): nat { if kind == SetBang then INTERN_SET else INTERN_DEFINE }

  predicate Binds(kind: RunType) { kind in {Define, DefineSyntax, SetBang} }

  /** The form's value has been pushed behind its name. */
  ghost predicate HasValue(st: VM, kind: RunType, name: Value, v: Value, at: VM) {
    && AtPtr(at, Null) && at.frames == st.frames && at.env == st.env && at.argnum == 3
    && at.stack == st.stack + [Closure(Binder(kind)), name, v]
    && HasSingletons(at.clos) && at.env < |at.envs|
  }

  /** From there three steps bind the name and return the binder itself. */
  lemma FinishBinding(st: VM, kind: RunType, name: Value, v: Value, at: VM)
    requires Binds(kind) && name.Sym? && HasValue(st, kind, name, v, at)
    requires |st.stack| == Base(st.frames) && st.status.Running?
    ensures Above(at, 3, |st.frames|) && Returned(st, Closure(Binder(kind)), After(at, 3))
    ensures After(at, 3).envs == Bound(kind, at.envs, st.env, name, v) && After(at, 3).clos == at.clos
  {
    var f := Closure(Binder(kind));
    var s1 := ApplyOf(at, Binder(kind));
    var s2 := s1.(stack := st.stack + [f], argnum := 1, ip := 1, envs := Bound(kind, at.envs, at.env, name, v));
    StepBinder(s1, kind, st.stack, name, v);
    StepReturn(s2, f);
    hide Step;
    StepsTo(at, s1, 2);
    StepsTo(s1, s2, 1);
    StepsTo(s2, Step(s2), 0);
    NoMore(Step(s2));
    assert s2.stack[..Base(st.frames)] == st.stack[..Base(st.frames)];
    SameReturn(st, s2, f, Step(s2));
  }

  lemma StepBinder(st: VM, kind: RunType, below: seq<Value>, name: Value, v: Value)
    requires AtInstr(st, if kind == SetBang then InternSet else InternDefine)
    requires Binds(kind) && name.Sym? && st.argnum == 3 && st.env < |st.envs|
    requires st.stack == below + [Closure(Binder(kind)), name, v]
    ensures Step(st) == st.(stack := below + [Closure(Binder(kind))], argnum := 1, ip := st.ip + 1,
                            envs := Bound(kind, st.envs, st.env, name, v))
  {
    hide SetVar, SetVarRecurse;
    assert st.stack[..|st.stack| - 2] == below + [Closure(Binder(kind))];
  }

  /** Binding a name to an expression: its operand is walked next. */
  lemma StepBinding(st: VM, e: Value, kind: RunType)
    requires AtForm(st, e, kind) && Binds(kind) && e.cdr.Pair? && e.cdr.car.Sym?
    ensures Step(st) ==
      st.(stack := st.stack + [Closure(Binder(kind)), e.cdr.car], argnum := 2, ptr := e.cdr.cdr)
  {
    StepForm(st, e, kind);
    hide Step;
    assert st.stack + [Closure(Binder(kind))] + [e.cdr.car] == st.stack + [Closure(Binder(kind)), e.cdr.car];
  }

  lemma StepFunction(st: VM, e: Value, kind: RunType, f: Value, params: Value, body: Value)
    requires AtForm(st, e, kind) && Binds(kind) && e.cdr == Pair(Pair(f, params), body)
    ensures Step(st) ==
      st.(stack := st.stack + [Closure(Binder(kind)), f, Closure(|st.clos|)], argnum := 3, ptr := Null,
          clos := st.clos + [Clos(body, params, st.env, false, 0, [], [])])
  {
    StepForm(st, e, kind);
    hide Step, AtForm;
    var fun := Closure(|st.clos|);
    assert st.stack + [Closure(Binder(kind))] + [f] + [fun] == st.stack + [Closure(Binder(kind)), f, fun];
  }

  /** `(define (f . params) . body)` binds `f` here to a new closure over this environment. */
  lemma FunctionDefined(st: VM, e: Value, kind: RunType, f: Value, params: Value, body: Value)
    requires AtForm(st, e, kind) && Binds(kind) && e.cdr == Pair(Pair(f, params), body) && f.Sym?
    requires st.env < |st.envs|
    ensures GivesIn(st, Closure(Binder(kind)), 4)
    ensures After(st, 4).envs == Bound(kind, st.envs, st.env, f, Closure(|st.clos|))
    ensures After(st, 4).clos == st.clos + [Clos(body, params, st.env, false, 0, [], [])]
  {
    hide Step, Bound;
    StepFunction(st, e, kind, f, params, body);
    var s1 := Step(st);
    FinishBinding(st, kind, f, Closure(|st.clos|), s1);
    StepsTo(st, s1, 3);
  }

  // ---------- what binding does ----------

  function BindOp(kind: RunType, name: Value, v: Value): Op<Value> {
    if kind == SetBang then SetRecurse(0, name, v) else Set(0, name, v)
  }

  /** The frame in which the binding is made. */
  function BoundIn(kind: RunType, envs: seq<EnvFrame>, env: nat, name: Value): nat {
    var node := FindNode(envs, env, name);
    if kind == SetBang && node.Some? then node.value.env else env
  }

  /** Seen from its environment, binding does what the stack of maps says; no other frame changes; and the name is then
      bound to the value, in the very node that had been found before if `set!` found one. */
  lemma BoundOnStack(kind: RunType, envs: seq<EnvFrame>, env: nat, name: Value, v: Value)
    requires env < |envs|
    ensures var more := Bound(kind, envs, env, name, v);
      && Frames(more, env) == ApplyOp(Frames(envs, env), BindOp(kind, name, v))
      && |more| == |envs| && (forall i | 0 <= i < |envs| && i != BoundIn(kind, envs, env, name) :: more[i] == envs[i])
      && Lookup(more, env, name) == Some(v)
      && var node := FindNode(envs, env, name);
      && (kind == SetBang && node.Some? ==>
            FindNode(more, env, name) == node && more[node.value.env].vars[name] == v)
  {
    StoreSets(envs, env, name, v);
    var more := Bound(kind, envs, env, name, v);
    var node := FindNode(envs, env, name);
    if kind == SetBang && node.Some? {
      assert more == SetVar(envs, node.value.env, name, v);
      SameNode(envs, more, env, name);
      assert name in more[node.value.env].vars && more[node.value.env].vars[name] == v;
    } else {
      assert more == SetVar(envs, env, name, v);
      assert name in more[env].vars && more[env].vars[name] == v;
      assert FindNode(more, env, name) == Some(NodeRef(env, name));
    }
  }

  /** A search is not led elsewhere by values that change. */
  lemma {:induction false} SameNode(envs: seq<EnvFrame>, more: seq<EnvFrame>, env: nat, name: Value)
    requires |envs| == |more|
    requires forall i | 0 <= i < |envs| ::
               more[i].last == envs[i].last && (name in more[i].vars <==> name in envs[i].vars)
    ensures FindNode(more, env, name) == FindNode(envs, env, name)
    decreases env
  {
    if env < |envs| && name !in envs[env].vars && envs[env].last.Some? && envs[env].last.value < env {
      SameNode(envs, more, envs[env].last.value, name);
    }
  }

  // ---------- binding the value of an expression ----------

  /** The activation that evaluates the operand of a binding form. */
  function Operand(st: VM, e: Value, kind: RunType): VM
    requires e.Pair? && e.cdr.Pair? && e.cdr.cdr.Pair?
  {
    var frame := Frame(st.closure, |st.stack| + 2, 2, SavedPtr(e.cdr.cdr.cdr, st.env));
    st.(stack := st.stack + [Closure(Binder(kind)), e.cdr.car], frames := st.frames + [frame], argnum := 0,
        ptr := e.cdr.cdr.car)
  }

  lemma OperandStarts(st: VM, e: Value, kind: RunType)
    requires AtForm(st, e, kind) && Binds(kind) && DefineShape(e) && e.cdr.car.Sym? && e.cdr.cdr.car.Pair?
    ensures After(st, 2) == Operand(st, e, kind) && Above(st, 2, |st.frames|)
  {
    hide Step, After, Above, HasSingletons, Lookup;
    StepBinding(st, e, kind);
    var s1 := st.(stack := st.stack + [Closure(Binder(kind)), e.cdr.car], argnum := 2, ptr := e.cdr.cdr);
    var s2 := Operand(st, e, kind);
    assert e.cdr.cdr == Pair(e.cdr.cdr.car, Null);
    StepElement(s1, e.cdr.cdr.car, Null);
    assert CallEval(s1.(ptr := Null), e.cdr.cdr.car) == s2;
    StepsTo(st, s1, 1);
    StepsTo(s1, s2, 0);
    NoMore(s2);
    var d := |st.frames|;
    assert Above(s2, 0, d);
    assert Above(s1, 0 + 1, d);
    assert Above(st, 1 + 1, d);
    assert After(st, 1 + 1) == After(s1, 0 + 1) == s2;
  }

  lemma SingletonsStay(st: VM, n: nat)
    requires HasSingletons(st.clos) && After(st, n).status.Running?
    ensures HasSingletons(After(st, n).clos)
  {
    hide Step, After;
    forall id | 0 <= id < FIRST_FREE ensures id < |After(st, n).clos| && After(st, n).clos[id] == SINGLETONS[id] {
      SingletonAt(st.clos, id);
      CompiledStays(st, id, n);
    }
    SingletonAt(st.clos, FIRST_FREE - 1);
    CompiledStays(st, FIRST_FREE - 1, n);
  }

  /** `(define x e)`, `(define-syntax x e)` and `(set! x e)`, whatever list `e` is: once e has given `v`, x is bound to
      it, as the environments of that moment say, and the caller goes on. */
  lemma OperandBinds(st: VM, e: Value, kind: RunType, v: Value, n: nat)
    requires AtForm(st, e, kind) && Binds(kind) && DefineShape(e) && e.cdr.car.Sym? && e.cdr.cdr.car.Pair?
    requires GivesIn(Operand(st, e, kind), v, n)
    requires st.env < |st.envs|
    ensures GivesIn(st, Closure(Binder(kind)), 2 + n + 3)
    ensures var at, post := After(Operand(st, e, kind), n), After(st, 2 + n + 3);
      && st.env < |at.envs|
      && post.envs == Bound(kind, at.envs, st.env, e.cdr.car, v) && post.clos == at.clos
  {
    hide Step, After, Above, Bound;
    var inner, d := Operand(st, e, kind), |st.frames|;
    var at := After(inner, n);
    OperandStarts(st, e, kind);
    EnvsStay(inner, n);
    SingletonsStay(inner, n);
    assert inner.frames[..d] == st.frames;
    assert at.stack == st.stack + [Closure(Binder(kind)), e.cdr.car, v];
    FinishBinding(st, kind, e.cdr.car, v, at);
    AfterSum(st, 2, n);
    AfterSum(st, 2 + n, 3);
    LowerAbove(inner, n, d + 1, d);
    AboveJoined(st, 2, n, d);
    AboveJoined(st, 2 + n, 3, d);
  }

  /** `(define-syntax m (syntax-rules keywords . rules))` binds m to that macro. */
  lemma MacroDefined(st: VM, e: Value, kind: RunType, keywords: Value, rules: Value)
    requires AtForm(st, e, kind) && Binds(kind) && DefineShape(e) && e.cdr.car.Sym? && st.env < |st.envs|
    requires var init := e.cdr.cdr.car;
      && init.Pair? && init.cdr == Pair(keywords, rules) && init.car.Sym?
      && Lookup(st.envs, st.env, init.car) == Some(Run(SyntaxRules))
    requires (keywords.Pair? || keywords.Null?) && rules.Pair?
    ensures GivesIn(st, Closure(Binder(kind)), 8)
    ensures After(st, 8).envs == Bound(kind, st.envs, st.env, e.cdr.car, Rules(keywords, rules))
    ensures Lookup(After(st, 8).envs, st.env, e.cdr.car) == Some(Rules(keywords, rules))
  {
    hide Step, After, Above, Bound;
    var inner := Operand(st, e, kind);
    SyntaxRulesReturns(inner, e.cdr.cdr.car, keywords, rules);
    OperandBinds(st, e, kind, Rules(keywords, rules), 3);
    BoundOnStack(kind, st.envs, st.env, e.cdr.car, Rules(keywords, rules));
  }

  // ---------- binding the value of an expression of the fragment ----------

  lemma {:induction false} ExtendedFinds(envs: seq<EnvFrame>, more: seq<EnvFrame>, env: nat, name: Value)
    requires Extends(envs, more) && env < |envs|
    ensures FindNode(more, env, name) == FindNode(envs, env, name) && Frames(more, env) == Frames(envs, env)
    decreases env
  {
    if envs[env].last.Some? && envs[env].last.value < env { ExtendedFinds(envs, more, envs[env].last.value, name); }
  }

  /** Seen from the environment of `st`, the stack of maps has changed as the binding says; no other frame there was has
      changed; and a node that `set!` found, wherever it is captured, now holds the value. */
  ghost predicate Changed(st: VM, kind: RunType, name: Value, v: Value, post: VM)
    requires st.env < |st.envs|
  {
    && |st.envs| <= |post.envs|
    && Frames(post.envs, st.env) == ApplyOp(Frames(st.envs, st.env), BindOp(kind, name, v))
    && (forall i | 0 <= i < |st.envs| && i != BoundIn(kind, st.envs, st.env, name) :: post.envs[i] == st.envs[i])
    && Lookup(post.envs, st.env, name) == Some(v)
    && var node := FindNode(st.envs, st.env, name);
    && (kind == SetBang && node.Some? ==>
          name in post.envs[node.value.env].vars && post.envs[node.value.env].vars[name] == v)
  }

  lemma BoundChanges(st: VM, kind: RunType, name: Value, v: Value, envs: seq<EnvFrame>, post: VM)
    requires Extends(st.envs, envs) && st.env < |st.envs| && post.envs == Bound(kind, envs, st.env, name, v)
    ensures Changed(st, kind, name, v, post)
  {
    hide Bound, Frames;
    ExtendedFinds(st.envs, envs, st.env, name);
    BoundOnStack(kind, envs, st.env, name, v);
  }

  lemma ProgramSingletons(p: Program, st: VM)
    requires WfProgram(p) && Conforms(p, st)
    ensures HasSingletons(st.clos)
  {
    SingletonCode(p, st, 3);
    forall id | 0 <= id < FIRST_FREE ensures id < |st.clos| && st.clos[id] == SINGLETONS[id] {
      SingletonCode(p, st, id);
    }
  }

  /** `(set! x e)`, and likewise the two defines: when e means v the activation ends, callers untouched, with x bound to
      v as the stack of maps says; when e means an error it is one, and it lasts as long as e does. */
  lemma BindingSim(
    p: Program, b: nat, c: nat, all: set<Value>, locals: map<Value, Value>, e: Value, kind: RunType, d: nat, st: VM,
    fuel: nat)
    returns (n: nat)
    requires Setting(p, b, c, all, locals, fuel) && Walking(p, c, locals, st)
    requires AtForm(st, e, kind) && Binds(kind) && DefineShape(e) && e.cdr.car.Sym?
    requires WfExpr(p, Flatten(p.envs, c), all, locals.Keys, e.cdr.cdr.car, true)
    requires d > 0 && PeakElem(Flatten(p.envs, c), e.cdr.cdr.car, d) <= b
    ensures var name := e.cdr.car;
      match EvalExpr(p, Flatten(p.envs, c), locals, e.cdr.cdr.car, fuel)
      case Val(v) => GivesIn(st, Closure(Binder(kind)), n) && Changed(st, kind, name, v, After(st, n))
      case Error => BreaksIn(st, n)
      case Timeout => n >= fuel && Above(st, n, |st.frames|)
      case Unclaimed => true
  {
    hide Step, Runs, Conforms, WfProgram, ApplyClaim, After, Above, WfExpr, PeakElem, Bound, Changed, HasSingletons;
    StepBinding(st, e, kind);
    var s1, depth := Step(st), |st.frames|;
    SameTables(p, st, s1);
    var k, mid := ElementSim(p, b, c, all, locals, e.cdr.cdr, d, s1, fuel);
    var out := EvalExpr(p, Flatten(p.envs, c), locals, e.cdr.cdr.car, fuel);
    n := 1 + k;
    if !out.Unclaimed? {
      RunsIsAbove(b, s1, k, depth, mid);
      StepsTo(st, s1, k);
      if out.Val? {
        assert mid.stack == st.stack + [Closure(Binder(kind)), e.cdr.car, out.value];
        ProgramSingletons(p, mid);
        FinishBinding(st, kind, e.cdr.car, out.value, mid);
        AfterSum(st, n, 3);
        AboveJoined(st, n, 3, depth);
        BoundChanges(st, kind, e.cdr.car, out.value, mid.envs, After(mid, 3));
        n := n + 3;
      }
    }
  }

  // ---------- what is refused ----------

  /** The kinds that are forms at the head of a list; every other value there is pushed as an operator is, and so is a
      form behind the head. */
  lemma FormKinds(st: VM, head: Value, rest: Value, v: Value)
    requires AtPtr(st, Pair(head, rest)) && head.Sym? && Lookup(st.envs, st.env, head) == Some(v) && !v.Rules?
    ensures IsSpecialForm(v) <==>
      v.Run? && v.kind in {Lambda, Define, DefineSyntax, SetBang, If, Begin, Quote, SyntaxRules}
    ensures !IsSpecialForm(v) || st.argnum > 0 ==>
      Step(st) == st.(ptr := rest, stack := st.stack + [v], argnum := st.argnum + 1)
  {
    hide Step;
    if v.Run? {
      match v.kind {
        case NoType | Eval | SetPtr =>
        case _ =>
      }
    }
    if !IsSpecialForm(v) || st.argnum > 0 { StepSymbol(st, head, rest, v); }
  }


  /** Behind the head of a list a symbol is its value, the names of forms and macros included; a symbol that nothing
      binds is an error, there as at the head and by itself. */
  lemma OperandSymbol(st: VM, head: Value, rest: Value)
    requires AtPtr(st, Pair(head, rest)) && head.Sym?
    ensures var found := Lookup(st.envs, st.env, head);
      && (found.None? ==> Step(st).status.Failed?)
      && (found.Some? && st.argnum > 0 ==>
            && Step(st).stack == st.stack + [found.value] && Step(st).argnum == st.argnum + 1
            && AtPtr(Step(st), rest) && Step(st).frames == st.frames && Step(st).env == st.env)
  {
    hide HandleSpecialForm, HandleMacro;
  }

  lemma LoneSymbol(st: VM, s: Value)
    requires AtPtr(st, s) && s.Sym? && Lookup(st.envs, st.env, s).None?
    ensures Step(st).status.Failed?
  {
  }

  /** A binder takes a name and a value: any other number of operands, or a name that is no symbol, is an error. */
  lemma BindingRefused(st: VM, kind: RunType)
    requires AtPtr(st, Null) && Binds(kind) && HasSingletons(st.clos) && st.env < |st.envs|
    requires 0 < st.argnum <= |st.stack| && st.stack[|st.stack| - st.argnum] == Closure(Binder(kind))
    ensures After(st, 2).status.Failed? <==> st.argnum != 3 || !st.stack[|st.stack| - 2].Sym?
  {
    hide Step, After, Above, HasSingletons;
    var s1 := ApplyOf(st, Binder(kind));
    SingletonAt(st.clos, Binder(kind));
    StepBinderAny(s1, kind);
    StepsTo(st, s1, 1);
    StepsTo(s1, Step(s1), 0);
    NoMore(Step(s1));
  }

  lemma StepBinderAny(st: VM, kind: RunType)
    requires AtInstr(st, if kind == SetBang then InternSet else InternDefine) && Binds(kind) && st.env < |st.envs|
    requires 0 < st.argnum <= |st.stack|
    ensures Step(st).status.Failed? <==> st.argnum != 3 || !st.stack[|st.stack| - 2].Sym?
  {
    hide SetVar, SetVarRecurse;
  }

  /** Only closures can be applied, and set-ptr to one operand. */
  lemma NotApplicable(st: VM)
    requires AtPtr(st, Null) && 0 < st.argnum <= |st.stack|
    requires var f := st.stack[|st.stack| - st.argnum]; !f.Closure? && (f == Run(SetPtr) ==> st.argnum != 2)
    ensures Step(st).status.Failed?
  {
  }

  /** A binding form that names neither a symbol nor a function goes on as a call of the binder with all its parts. */
  lemma NamelessBinding(st: VM, e: Value, kind: RunType)
    requires AtForm(st, e, kind) && Binds(kind) && e.cdr.Pair? && !e.cdr.car.Sym? && !e.cdr.car.Pair?
    ensures Step(st) == st.(stack := st.stack + [Closure(Binder(kind))], argnum := 1, ptr := e.cdr)
  {
    StepForm(st, e, kind);
  }

  /** A `lambda` without a body, or whose parameters are no list, is reported and goes on as a call of its parts. */
  lemma LambdaRefused(st: VM, e: Value)
    requires AtForm(st, e, Lambda) && e.cdr.Pair?
    requires !(e.cdr.car.Pair? || e.cdr.car.Null?) || !e.cdr.cdr.Pair?
    ensures Step(st) == st.(ptr := e.cdr)
  {
    StepForm(st, e, Lambda);
  }

  // ---------- quotation ----------

  /** A quotation mark before the printed form of a datum is read as an expression whose value is the datum. */
  lemma QuotedDatum(d: Value, shown: nat -> string, rest: string, st: VM)
    requires RoundTripProof.IsDatum(d) && RoundTripProof.NoPeriodElement(d) && RoundTripProof.Ends(d, rest)
    ensures var p := Parser.ParseExpression(Parser.Start("'" + Writer.Written(d, shown) + rest));
      && p.Parsed? && p.rest.input == rest
      && (AtForm(st, p.value, Quote) ==> GivesIn(st, d, 3))
  {
    RoundTripProof.QuotedReads(d, shown, rest);
    var e := Pair(Sym("quote"), Pair(d, Null));
    if AtForm(st, e, Quote) { QuoteReturns(st, e, d, Null); }
  }

  /** Intern-if with any other number of operands than four reports it and leaves them. */
  lemma ChooserUntouched(st: VM)
    requires AtInstr(st, InternIf) && st.argnum != 4
    ensures Step(st) == st.(ip := st.ip + 1)
  {
  }
}
