/** Inputs just outside the simulated fragment on which the two engines part: the same closure applied to the same
    arguments, before and after it is compiled. */
module Disagreements {
  import opened Values
  import opened EnvStore
  import opened Compiler
  import opened Machine
  import opened Semantics
  import opened FrameDiscipline
  import opened Activations
  import opened InterpreterProof
  import opened CodeLayout
  import Restrictions

  const CONS := Sym("cons")
  const BEGIN := Sym("begin")
  const IF := Sym("if")
  const CONS_ID: nat := FIRST_FREE + 1

  const GLOBAL_VARS: map<Value, Value> := map[CONS := Closure(CONS_ID), BEGIN := Run(Begin), IF := Run(If)]
  const GLOBAL: seq<EnvFrame> := [EnvFrame(GLOBAL_VARS, None)]

  function List1(a: Value): Value { Pair(a, Null) }
  function List2(a: Value, b: Value): Value { Pair(a, List1(b)) }

  /** A closure over the global environment that has not been called. */
  function Fresh(args: Value, body: Value): Clos {
    Clos(body, args, 0, false, 0, [], [])
  }

  /** A machine about to apply `c` to `args`. */
  function Calling(c: Clos, args: seq<Value>): VM {
    VM([Closure(FIRST_FREE)] + args, 1 + |args|, [], 0, Interpreted, 0, Null, 0,
       SINGLETONS + [c, Builtin([Prim(Cons), Return])], GLOBAL, Running)
  }

  /** What `n` turns make of the call. */
  function Outcome(c: Clos, args: seq<Value>, n: nat): Status {
    After(CallApply(Calling(c, args)), n).status
  }

  /** What the compiler makes of `c`. */
  function Threaded(c: Clos): Clos {
    match CompileClosure(Flatten(GLOBAL, 0), c.args, c.definition)
    case Code(code, closed) => c.(compiled := true, code := code, closed := closed)
    case _ => c
  }

  function GlobalNodes(): Bindings {
    map[CONS := Binding(NodeRef(0, CONS), Closure(CONS_ID)), BEGIN := Binding(NodeRef(0, BEGIN), Run(Begin)),
        IF := Binding(NodeRef(0, IF), Run(If))]
  }

  lemma GlobalBindings()
    ensures Flatten(GLOBAL, 0) == GlobalNodes()
  {
    assert GLOBAL[0].last == None;
    assert Flatten(GLOBAL, 0) ==
           map[] + (map key | key in GLOBAL_VARS :: Binding(NodeRef(0, key), GLOBAL_VARS[key]));
  }

  lemma ThreadedIs(c: Clos, s: Scope, code: seq<Instr>)
    requires DefinesHaveNames(GlobalNodes(), c.definition) && ListHasArms(GlobalNodes(), c.definition)
    requires GenTopScope(GlobalNodes(), c.args, c.definition) == Some(s)
    requires CompList(GlobalNodes(), s.table, c.definition, true, ListLength(c.args) + 1, 0) == code
    ensures Threaded(c) == c.(compiled := true, code := code + [ReturnLast], closed := NodesOf(s.closed))
  {
    hide DefinesHaveNames, ListHasArms, GenTopScope, CompList, GlobalNodes;
    GlobalBindings();
  }

  /** A body of one form, whose code is `code`. */
  lemma OneForm(g: Bindings, t: Table, form: Value, d: nat, code: seq<Instr>)
    requires CompElem(g, t, form, true, d, 0) == code && ElemHasArms(g, form) && !IsStatement(g, form, Define)
    ensures CompList(g, t, List1(form), true, d, 0) == code
    ensures DefinesHaveNames(g, List1(form)) && ListHasArms(g, List1(form))
  {
    hide CompElem, ElemHasArms;
    assert CompList(g, t, Null, true, d + 1, |code|) == [];
  }

  lemma Turn(st: VM, next: VM, n: nat)
    requires n > 0 && Step(st) == next
    ensures After(st, n) == After(next, n - 1)
  {
    hide Step;
  }

  /** The state in which an interpreted body starts. */
  lemma Entered(c: Clos, args: seq<Value>, body: VM)
    requires !c.compiled && c.numCalls == 0 && c.env == 0 && ListLength(c.args) == |args|
    requires body == Walker(c, args, c.definition, [Closure(RETURN_LAST)], 1, [])
    ensures CallApply(Calling(c, args)) == body
  {
    var st := Calling(c, args);
    assert st.stack[1..] == args;
    assert st.stack[..0] + [Closure(RETURN_LAST)] == [Closure(RETURN_LAST)];
    assert st.clos[FIRST_FREE := c.(numCalls := 1)] == body.clos;
  }

  /** The tree walker at `ptr` in the first call of `c`. */
  function Walker(c: Clos, args: seq<Value>, ptr: Value, stack: seq<Value>, argnum: nat, frames: seq<Frame>): VM
    requires ListLength(c.args) == |args|
  {
    VM(stack, argnum, frames, FIRST_FREE, Interpreted, 0, ptr, 1,
       SINGLETONS + [c.(numCalls := c.numCalls + 1), Builtin([Prim(Cons), Return])],
       GLOBAL + [EnvFrame(BindArgs(map[], c.args, args), Some(0))], Running)
  }

  lemma EntersCode(c: Clos, args: seq<Value>)
    requires c.compiled
    ensures CallApply(Calling(c, args)) == Calling(c, args).(closure := FIRST_FREE, mode := Mode.Compiled, ip := 0)
  {
  }

  // ---------- the number of arguments ----------

  /** `(lambda (x) 7)` */
  const SEVEN: Clos := Fresh(List1(Sym("x")), List1(Int(7)))

  lemma SevenCode()
    ensures Threaded(SEVEN) == SEVEN.(compiled := true, code := [PushConst(Int(7)), ReturnLast])
  {
    var g := GlobalNodes();
    var t: Table := map[Sym("x") := Parameter(1)];
    assert AddParams(map[], SEVEN.args, 1) == t;
    assert GenSubScope(g, Scope(t, []), Null) == Some(Scope(t, []));
    assert CompList(g, t, Null, true, 3, 1) == [];
    assert CompList(g, t, SEVEN.definition, true, 2, 0) == [PushConst(Int(7))];
    ThreadedIs(SEVEN, Scope(t, []), [PushConst(Int(7))]);
  }

  lemma RunsConstant(st: VM, v: Value)
    requires AtInstr(st, PushConst(v)) && st.ip == 0 && st.frames == [] && |st.stack| == st.argnum
    requires |st.clos[st.closure].code| > 1 && st.clos[st.closure].code[1] == ReturnLast
    ensures After(st, 2).status == Done(v)
  {
    var s1 := st.(stack := st.stack + [v], argnum := st.argnum + 1, ip := 1);
    StepConst(st, v);
    StepReturnLast(s1, v);
    hide Step;
    Turn(st, s1, 2);
    Turn(s1, Step(s1), 1);
  }

  /** Called with no argument: an error before, 7 after. */
  lemma ArityDisagrees()
    ensures Outcome(SEVEN, [], 0).Failed?
    ensures Threaded(SEVEN).compiled && Outcome(Threaded(SEVEN), [], 2) == Done(Int(7))
  {
    SevenCode();
    hide Threaded, Step;
    var c := Threaded(SEVEN);
    EntersCode(c, []);
    RunsConstant(CallApply(Calling(c, [])), Int(7));
  }

  // ---------- two-armed if ----------

  /** The tree walker refuses an `if` with fewer than three parts, whatever they are. */
  lemma ShortIfFails(st: VM, rest: Value)
    requires AtPtr(st, Pair(IF, rest)) && st.argnum == 0 && Lookup(st.envs, st.env, IF) == Some(Run(If))
    requires rest.Pair?
    ensures Step(st).status.Failed? <==> !rest.cdr.Pair? || !rest.cdr.cdr.Pair?
  {
    StepSpecial(st, IF, rest, If);
  }

  /** `(lambda () (if #t 1))` */
  const ONE_ARM: Clos := Fresh(Null, List1(Pair(IF, List2(Bool(true), Int(1)))))

  lemma GlobalLookup(envs: seq<EnvFrame>, env: nat, key: Value)
    requires env < |envs| && 0 < env && envs[0] == GLOBAL[0] && envs[env].last == Some(0)
    requires key !in envs[env].vars && key in GLOBAL_VARS
    ensures Lookup(envs, env, key) == Some(GLOBAL_VARS[key])
  {
    assert FindNode(envs, 0, key) == Some(NodeRef(0, key));
    assert FindNode(envs, env, key) == Some(NodeRef(0, key));
  }

  lemma OneArmInterpreted()
    ensures Outcome(ONE_ARM, [], 2).Failed?
  {
    var form := ONE_ARM.definition.car;
    var s0 := Walker(ONE_ARM, [], ONE_ARM.definition, [Closure(RETURN_LAST)], 1, []);
    Entered(ONE_ARM, [], s0);
    StepElement(s0, form, Null);
    var s1 := CallEval(s0.(ptr := Null), form);
    GlobalLookup(s1.envs, 1, IF);
    ShortIfFails(s1, form.cdr);
    hide Step;
    Turn(s0, s1, 2);
    Turn(s1, Step(s1), 1);
  }

  lemma OneArmScope(g: Bindings)
    requires IsToken(g, IF, If)
    ensures GenTopScope(g, Null, ONE_ARM.definition) == Some(Scope(map[], []))
  {
    var s, form := Scope(map[], []), ONE_ARM.definition.car;
    assert GenSubScope(g, s, List1(Int(1))) == Some(s);
    assert GenSubScope(g, s, form.cdr) == Some(s);
    assert GenSubScope(g, s, form) == Some(s);
  }

  lemma OneArmBody(g: Bindings, t: Table)
    requires IsToken(g, IF, If)
    ensures var body := ONE_ARM.definition;
      && CompList(g, t, body, true, 1, 0) == [PushConst(Bool(true)), JumpIfFalse(4), PushConst(Int(1)), Jump(4)]
      && DefinesHaveNames(g, body) && ListHasArms(g, body)
  {
    var test, left, right := IfCode(g, t, ONE_ARM.definition.car, true, 1, 0);
    assert CompElem(g, t, Int(1), true, 1, 2) == [PushConst(Int(1))];
    hide CompList;
    OneForm(g, t, ONE_ARM.definition.car, 1,
      [PushConst(Bool(true)), JumpIfFalse(4), PushConst(Int(1)), Jump(4)]);
  }

  lemma OneArmCode()
    ensures Threaded(ONE_ARM) == ONE_ARM.(compiled := true,
              code := [PushConst(Bool(true)), JumpIfFalse(4), PushConst(Int(1)), Jump(4), ReturnLast], closed := [])
  {
    hide GenTopScope, CompList, ListHasArms, DefinesHaveNames, Threaded;
    OneArmScope(GlobalNodes());
    OneArmBody(GlobalNodes(), map[]);
    ThreadedIs(ONE_ARM, Scope(map[], []), [PushConst(Bool(true)), JumpIfFalse(4), PushConst(Int(1)), Jump(4)]);
  }

  /** Threaded code of an `if` with a true constant as its test and a constant as its first branch. */
  lemma RunsFirstBranch(st: VM, test: Value, v: Value, second: nat, end: nat)
    requires AtInstr(st, PushConst(test)) && test != Bool(false) && st.ip == 0 && st.frames == []
    requires |st.stack| == st.argnum
    requires var code := st.clos[st.closure].code;
      && end < |code| && |code| > 3 && code[end] == ReturnLast
      && code[1] == JumpIfFalse(second) && code[2] == PushConst(v) && code[3] == Jump(end)
    ensures After(st, 5).status == Done(v)
  {
    var s1 := st.(stack := st.stack + [test], argnum := st.argnum + 1, ip := 1);
    var s2 := st.(ip := 2);
    var s3 := st.(stack := st.stack + [v], argnum := st.argnum + 1, ip := 3);
    var s4 := s3.(ip := end);
    StepConst(st, test);
    StepJumpIfFalse(s1, second, st, test);
    StepConst(s2, v);
    StepJump(s3, end);
    StepReturnLast(s4, v);
    hide Step;
    Turn(st, s1, 5);
    Turn(s1, s2, 4);
    Turn(s2, s3, 3);
    Turn(s3, s4, 2);
    Turn(s4, Step(s4), 1);
  }

  /** An error before, the one branch's value after. */
  lemma OneArmDisagrees()
    ensures Outcome(ONE_ARM, [], 2).Failed?
    ensures Outcome(Threaded(ONE_ARM), [], 5) == Done(Int(1))
  {
    OneArmInterpreted();
    OneArmCode();
    hide Threaded, Step;
    var c := Threaded(ONE_ARM);
    EntersCode(c, []);
    RunsFirstBranch(CallApply(Calling(c, [])), Bool(true), Int(1), 4, 4);
  }

  // ---------- a parameter named like a special form ----------

  /** `(lambda (if) (if 1 2 3))` */
  const HIDDEN: Clos := Fresh(List1(IF), List1(Pair(IF, Pair(Int(1), List2(Int(2), Int(3))))))

  lemma HiddenScope(g: Bindings, t: Table)
    requires IsToken(g, IF, If) && t == map[IF := Parameter(1)]
    ensures GenTopScope(g, HIDDEN.args, HIDDEN.definition) == Some(Scope(t, []))
  {
    var body, form, s := HIDDEN.definition, HIDDEN.definition.car, Scope(t, []);
    assert AddParams(map[], HIDDEN.args, 1) == t;
    assert GenSubScope(g, s, Null) == Some(s);
    assert GenSubScope(g, s, List1(Int(3))) == Some(s);
    assert GenSubScope(g, s, List2(Int(2), Int(3))) == Some(s);
    assert GenSubScope(g, s, form.cdr) == Some(s);
    assert GenSubScope(g, s, form) == Some(s);
    assert GenTopScope(g, HIDDEN.args, body) == Some(s);
  }

  lemma ConstantIfCode(g: Bindings, t: Table, a: Value, b: Value, c: Value, d: nat)
    requires IsToken(g, IF, If) && a.Int? && b.Int? && c.Int?
    ensures var body := List1(Pair(IF, Pair(a, List2(b, c))));
      && CompList(g, t, body, true, d, 0) ==
         [PushConst(a), JumpIfFalse(4), PushConst(b), Jump(5), PushConst(c)]
      && DefinesHaveNames(g, body) && ListHasArms(g, body)
  {
    var form := Pair(IF, Pair(a, List2(b, c)));
    var test, left, right := IfCode(g, t, form, true, d, 0);
    assert CompElem(g, t, b, true, d, 2) == [PushConst(b)];
    assert CompElem(g, t, c, true, d, 4) == [PushConst(c)];
    hide CompList;
    OneForm(g, t, form, d, [PushConst(a), JumpIfFalse(4), PushConst(b), Jump(5), PushConst(c)]);
  }

  lemma HiddenCode()
    ensures Threaded(HIDDEN) == HIDDEN.(compiled := true, closed := [],
              code := [PushConst(Int(1)), JumpIfFalse(4), PushConst(Int(2)), Jump(5), PushConst(Int(3)), ReturnLast])
  {
    hide GenTopScope, CompList, ListHasArms, DefinesHaveNames, Threaded;
    var t: Table := map[IF := Parameter(1)];
    HiddenScope(GlobalNodes(), t);
    ConstantIfCode(GlobalNodes(), t, Int(1), Int(2), Int(3), 2);
    ThreadedIs(HIDDEN, Scope(t, []),
      [PushConst(Int(1)), JumpIfFalse(4), PushConst(Int(2)), Jump(5), PushConst(Int(3))]);
  }

  /** A list whose head is bound to something that is not a form, then three constants: applied to them. */
  lemma WalkConstants(st: VM, head: Value, v: Value, a: Value, b: Value, c: Value)
    requires AtPtr(st, Pair(head, Pair(a, List2(b, c)))) && head.Sym? && st.argnum == 0
    requires Lookup(st.envs, st.env, head) == Some(v) && !v.Run? && !v.Rules?
    requires a.Int? && b.Int? && c.Int?
    ensures After(st, 5) == CallApply(st.(ptr := Null, stack := st.stack + [v, a, b, c], argnum := 4))
  {
    hide CallApply;
    var s1, s2 := st.(ptr := Pair(a, List2(b, c)), stack := st.stack + [v], argnum := 1),
                  st.(ptr := List2(b, c), stack := st.stack + [v, a], argnum := 2);
    var s3, s4 := st.(ptr := List1(c), stack := st.stack + [v, a, b], argnum := 3),
                  st.(ptr := Null, stack := st.stack + [v, a, b, c], argnum := 4);
    StepSymbol(st, head, st.ptr.cdr, v);
    StepDatum(s1, a, List2(b, c));
    StepDatum(s2, b, List1(c));
    StepDatum(s3, c, Null);
    StepApply(s4);
    hide Step;
    assert s1.stack + [a] == s2.stack;
    assert s2.stack + [b] == s3.stack;
    assert s3.stack + [c] == s4.stack;
    Turn(st, s1, 5);
    Turn(s1, s2, 4);
    Turn(s2, s3, 3);
    Turn(s3, s4, 2);
    Turn(s4, Step(s4), 1);
  }

  lemma HiddenInterpreted()
    ensures Outcome(HIDDEN, [Int(7)], 6).Failed?
  {
    var form := HIDDEN.definition.car;
    var s0 := Walker(HIDDEN, [Int(7)], HIDDEN.definition, [Closure(RETURN_LAST)], 1, []);
    Entered(HIDDEN, [Int(7)], s0);
    StepElement(s0, form, Null);
    var s1 := CallEval(s0.(ptr := Null), form);
    assert s1.envs[1].vars == map[IF := Int(7)];
    WalkConstants(s1, IF, Int(7), Int(1), Int(2), Int(3));
    hide Step;
    Turn(s0, s1, 6);
  }

  /** Applied to 7, which cannot be applied: an error before, the form's first branch after. */
  lemma HiddenFormDisagrees()
    ensures Outcome(HIDDEN, [Int(7)], 6).Failed?
    ensures Outcome(Threaded(HIDDEN), [Int(7)], 5) == Done(Int(2))
  {
    HiddenInterpreted();
    HiddenCode();
    hide Threaded, Step;
    var c := Threaded(HIDDEN);
    EntersCode(c, [Int(7)]);
    var s0 := CallApply(Calling(c, [Int(7)]));
    RunsFirstBranch(s0, Int(1), Int(2), 4, 5);
  }

  // ---------- begin as an operand ----------

  /** `(lambda () (cons (begin 1 2)))` */
  const SPLICED: Clos := Fresh(Null, List1(List2(CONS, Pair(BEGIN, List2(Int(1), Int(2))))))

  const SPLICED_TABLE: Table := map[CONS := Captured(0), BEGIN := Captured(1)]

  lemma NewSymbol(g: Bindings, s: Scope, sym: Value, node: NodeRef)
    requires sym !in s.table && sym in g && g[sym].node == node && FindClosed(s.closed, sym) == None
    ensures HandleSymbol(g, s, sym) ==
            Some(Scope(s.table[sym := Captured(|s.closed|)], s.closed + [ClosedVar(sym, node)]))
  {
  }

  lemma ConstantsScope(g: Bindings, s: Scope)
    ensures GenSubScope(g, s, Null) == Some(s) && GenSubScope(g, s, List2(Int(1), Int(2))) == Some(s)
  {
    assert GenSubScope(g, s, List1(Int(2))) == Some(s);
  }

  lemma SplicedScope(g: Bindings)
    requires g == GlobalNodes()
    ensures GenSubScope(g, Scope(map[], []), SPLICED.definition) == Some(Scope(SPLICED_TABLE,
              [ClosedVar(CONS, NodeRef(0, CONS)), ClosedVar(BEGIN, NodeRef(0, BEGIN))]))
  {
    hide HandleSymbol;
    var cons, begin := ClosedVar(CONS, NodeRef(0, CONS)), ClosedVar(BEGIN, NodeRef(0, BEGIN));
    var s0, s1 := Scope(map[], []), Scope(map[CONS := Captured(0)], [cons]);
    var s2 := Scope(SPLICED_TABLE, [cons, begin]);
    assert s0.closed + [cons] == s1.closed && s1.closed + [begin] == s2.closed;
    assert s0.table[CONS := Captured(0)] == s1.table && s1.table[BEGIN := Captured(1)] == s2.table;
    NewSymbol(g, s0, CONS, NodeRef(0, CONS));
    NewSymbol(g, s1, BEGIN, NodeRef(0, BEGIN));
    SplicedWalk(g, s0, s1, s2);
  }

  lemma SplicedWalk(g: Bindings, s0: Scope, s1: Scope, s2: Scope)
    requires g == GlobalNodes() && HandleSymbol(g, s0, CONS) == Some(s1) && HandleSymbol(g, s1, BEGIN) == Some(s2)
    ensures GenSubScope(g, s0, SPLICED.definition) == Some(s2)
  {
    hide HandleSymbol;
    var form := SPLICED.definition.car;
    var begin := form.cdr.car;
    ConstantsScope(g, s2);
    assert GenSubScope(g, s1, begin) == Some(s2);
    assert GenSubScope(g, s1, form.cdr) == Some(s2);
    assert GenSubScope(g, s0, form) == Some(s2);
  }

  lemma SplicedOperands(g: Bindings, t: Table)
    requires g == GlobalNodes() && t == SPLICED_TABLE
    ensures var form := SPLICED.definition.car;
      CompList(g, t, form, false, 1, 0) == [ClosureRef(0), PushConst(Int(1)), PushConst(Int(2))]
  {
    var rest := SPLICED.definition.car.cdr;
    var constants := List2(Int(1), Int(2));
    assert CompElem(g, t, CONS, false, 1, 0) == [ClosureRef(0)];
    hide CompList, CompElem;
    Restrictions.BeginSplices(g, t, BEGIN, constants, Null, 2, 1);
    assert Restrictions.Append(constants, Null) == constants;
    ConstantsCode(g, t, 2, 1);
    FirstOperand(g, t, CONS, rest, 1, 0);
  }

  lemma ConstantsCode(g: Bindings, t: Table, d: nat, ip: nat)
    ensures CompList(g, t, List2(Int(1), Int(2)), false, d, ip) == [PushConst(Int(1)), PushConst(Int(2))]
  {
    hide CompList;
    var list := List2(Int(1), Int(2));
    Restrictions.AtomListCode(g, t, list, d, ip);
    assert Restrictions.AtomCode(g, t, list.cdr) == [PushConst(Int(2))];
  }

  lemma FirstOperand(g: Bindings, t: Table, e: Value, rest: Value, d: nat, ip: nat)
    ensures var first := CompElem(g, t, e, false, d, ip);
      CompList(g, t, Pair(e, rest), false, d, ip) == first + CompList(g, t, rest, false, d + 1, ip + |first|)
  {
    hide CompElem;
  }

  lemma SplicedBody(g: Bindings, t: Table)
    requires g == GlobalNodes() && t == SPLICED_TABLE
    ensures var body := SPLICED.definition;
      && CompList(g, t, body, true, 1, 0) == [ClosureRef(0), PushConst(Int(1)), PushConst(Int(2)), DoTailCall(1)]
      && DefinesHaveNames(g, body) && ListHasArms(g, body)
  {
    var call := SPLICED.definition.car;
    SplicedOperands(g, t);
    assert CompElem(g, t, call, true, 1, 0) == CompList(g, t, call, false, 1, 0) + [DoTailCall(1)];
    assert ListHasArms(g, call.cdr.car.cdr);
    hide CompList, CompElem;
    OneForm(g, t, call, 1, [ClosureRef(0), PushConst(Int(1)), PushConst(Int(2)), DoTailCall(1)]);
  }

  lemma SplicedCode()
    ensures Threaded(SPLICED) == SPLICED.(compiled := true, closed := [NodeRef(0, CONS), NodeRef(0, BEGIN)],
              code := [ClosureRef(0), PushConst(Int(1)), PushConst(Int(2)), DoTailCall(1), ReturnLast])
  {
    hide GenSubScope, CompList, ListHasArms, Threaded;
    var closed := [ClosedVar(CONS, NodeRef(0, CONS)), ClosedVar(BEGIN, NodeRef(0, BEGIN))];
    SplicedScope(GlobalNodes());
    SplicedBody(GlobalNodes(), SPLICED_TABLE);
    assert NodesOf(closed) == [NodeRef(0, CONS), NodeRef(0, BEGIN)];
    ThreadedIs(SPLICED, Scope(SPLICED_TABLE, closed),
      [ClosureRef(0), PushConst(Int(1)), PushConst(Int(2)), DoTailCall(1)]);
  }

  /** The frame of an interpreted operand resumes with the value that return-last finds on top. */
  lemma ReturnsToWalker(st: VM, frames: seq<Frame>, f: Frame, below: seq<Value>, v: Value)
    requires AtInstr(st, ReturnLast) && st.frames == frames + [f] && f.sp == |below| && f.saved.SavedPtr?
    requires st.argnum > 0 && |st.stack| == |below| + st.argnum
    requires st.stack[..|below|] == below && st.stack[|st.stack| - 1] == v
    ensures Step(st) == st.(stack := below + [v], argnum := f.argnum + 1, closure := f.closure, frames := frames,
                            mode := Interpreted, ptr := f.saved.ptr, env := f.saved.env)
  {
    var valued := st.(stack := below + [v], argnum := st.argnum - 1);
    assert Step(st) == CallReturn(valued);
    assert valued.stack[..|below| + 1] == valued.stack;
    assert st.frames[..|frames|] == frames;
  }

  /** A `begin` of two constants as an operand. */
  lemma WalkBegin(st: VM, frames: seq<Frame>, f: Frame, a: Value, b: Value)
    requires AtPtr(st, Pair(BEGIN, List2(a, b))) && a.Int? && b.Int? && st.argnum == 0
    requires Lookup(st.envs, st.env, BEGIN) == Some(Run(Begin))
    requires st.clos != [] && st.clos[RETURN_LAST] == SINGLETONS[RETURN_LAST]
    requires st.frames == frames + [f] && f.sp == |st.stack| && f.saved.SavedPtr?
    ensures After(st, 5) == st.(stack := st.stack + [b], argnum := f.argnum + 1, closure := f.closure,
                                frames := frames, ip := 0, ptr := f.saved.ptr, env := f.saved.env)
  {
    var last := Closure(RETURN_LAST);
    var s1 := st.(ptr := List2(a, b), stack := st.stack + [last], argnum := 1);
    var s2 := st.(ptr := List1(b), stack := st.stack + [last, a], argnum := 2);
    var s3 := st.(ptr := Null, stack := st.stack + [last, a, b], argnum := 3);
    var s4 := s3.(closure := RETURN_LAST, mode := Mode.Compiled, ip := 0);
    StepSpecial(st, BEGIN, st.ptr.cdr, Begin);
    StepDatum(s1, a, List1(b));
    StepDatum(s2, b, Null);
    StepApply(s3);
    ReturnsToWalker(s4, frames, f, st.stack, b);
    hide Step;
    assert s1.stack + [a] == s2.stack && s2.stack + [b] == s3.stack;
    Turn(st, s1, 5);
    Turn(s1, s2, 4);
    Turn(s2, s3, 3);
    Turn(s3, s4, 2);
    Turn(s4, Step(s4), 1);
  }

  /** `cons` applied to one argument. */
  lemma ConsOfOne(st: VM)
    requires AtPtr(st, Null) && st.argnum == 2 && |st.stack| > 2 && st.stack[|st.stack| - 2] == Closure(CONS_ID)
    requires |st.clos| > CONS_ID && st.clos[CONS_ID] == Builtin([Prim(Cons), Return])
    ensures After(st, 2).status.Failed?
  {
    StepApply(st);
    var s1 := st.(closure := CONS_ID, mode := Mode.Compiled, ip := 0);
    assert Step(st) == s1;
    assert Step(s1) == OpPrim(s1, Cons);
    hide Step;
    Turn(st, s1, 2);
    Turn(s1, Step(s1), 1);
  }

  function SplicedWalker(ptr: Value, stack: seq<Value>, argnum: nat, frames: seq<Frame>): VM {
    Walker(SPLICED, [], ptr, stack, argnum, frames)
  }

  const TO_BODY: Frame := Frame(FIRST_FREE, 1, 1, SavedPtr(Null, 1))
  const TO_CALL: Frame := Frame(FIRST_FREE, 2, 1, SavedPtr(Null, 1))
  const LAST: Value := Closure(RETURN_LAST)

  /** Up to the operand. */
  lemma SplicedStarts()
    ensures var form := SPLICED.definition.car;
      After(SplicedWalker(SPLICED.definition, [LAST], 1, []), 3) ==
      SplicedWalker(form.cdr.car, [LAST, Closure(CONS_ID)], 0, [TO_BODY, TO_CALL])
  {
    var form := SPLICED.definition.car;
    var s0 := SplicedWalker(SPLICED.definition, [LAST], 1, []);
    var s1 := SplicedWalker(form, [LAST], 0, [TO_BODY]);
    var s2 := SplicedWalker(form.cdr, [LAST, Closure(CONS_ID)], 1, [TO_BODY]);
    GlobalLookup(s1.envs, 1, CONS);
    StepElement(s0, form, Null);
    StepSymbol(s1, CONS, form.cdr, Closure(CONS_ID));
    StepElement(s2, form.cdr.car, Null);
    hide Step;
    Turn(s0, s1, 3);
    Turn(s1, s2, 2);
    Turn(s2, Step(s2), 1);
  }

  lemma SplicedInterpreted()
    ensures Outcome(SPLICED, [], 10).Failed?
  {
    var begin := SPLICED.definition.car.cdr.car;
    var s0 := SplicedWalker(SPLICED.definition, [LAST], 1, []);
    var s3 := SplicedWalker(begin, [LAST, Closure(CONS_ID)], 0, [TO_BODY, TO_CALL]);
    var s8 := SplicedWalker(Null, [LAST, Closure(CONS_ID), Int(2)], 2, [TO_BODY]);
    Entered(SPLICED, [], s0);
    SplicedStarts();
    GlobalLookup(s3.envs, 1, BEGIN);
    WalkBegin(s3, [TO_BODY], TO_CALL, Int(1), Int(2));
    assert s3.stack + [Int(2)] == s8.stack;
    ConsOfOne(s8);
    hide After, CallApply;
    AfterSum(s0, 3, 7);
    AfterSum(s3, 5, 2);
  }

  lemma PushesTwo(st: VM, a: Value, b: Value)
    requires AtInstr(st, PushConst(a))
    requires var code := st.clos[st.closure].code; st.ip + 1 < |code| && code[st.ip + 1] == PushConst(b)
    ensures After(st, 2) == st.(stack := st.stack + [a, b], argnum := st.argnum + 2, ip := st.ip + 2)
  {
    StepConst(st, a);
    var s1 := st.(stack := st.stack + [a], argnum := st.argnum + 1, ip := st.ip + 1);
    StepConst(s1, b);
    hide Step;
    Turn(st, s1, 2);
    Turn(s1, Step(s1), 1);
    assert s1.stack + [b] == st.stack + [a, b];
  }

  /** Threaded code that pushes `cons` and two constants. */
  lemma PushesCons(st: VM, a: Value, b: Value)
    requires AtInstr(st, ClosureRef(0)) && st.ip == 0
    requires var c := st.clos[st.closure];
      && |c.code| > 3 && c.code[1] == PushConst(a) && c.code[2] == PushConst(b)
      && c.closed != [] && c.closed[0] == NodeRef(0, CONS)
    requires st.envs == GLOBAL
    ensures After(st, 3) == st.(stack := st.stack + [Closure(CONS_ID), a, b], argnum := st.argnum + 3, ip := 3)
  {
    hide Step;
    StepClosureRef(st, 0, NodeRef(0, CONS));
    var s1 := st.(stack := st.stack + [Closure(CONS_ID)], argnum := st.argnum + 1, ip := 1);
    Turn(st, s1, 3);
    hide After;
    PushesTwo(s1, a, b);
    assert s1.stack + [a, b] == st.stack + [Closure(CONS_ID), a, b];
  }

  /** The call in tail position of an activation with no caller. */
  lemma TailCallsCons(st: VM, f: Value, a: Value, b: Value)
    requires AtInstr(st, DoTailCall(1)) && st.argnum == 4 && st.frames == []
    requires st.stack == [f, Closure(CONS_ID), a, b]
    requires |st.clos| > CONS_ID && st.clos[CONS_ID] == Builtin([Prim(Cons), Return])
    ensures After(st, 3).status == Done(Pair(a, b))
  {
    var s4 := st.(stack := [Closure(CONS_ID), a, b], argnum := 3, ip := 0, closure := CONS_ID);
    var s5 := st.(stack := [Pair(a, b)], argnum := 1, ip := 1, closure := CONS_ID);
    assert st.stack[..0] + st.stack[1..] == s4.stack;
    StepDoTailCall(st, 1);
    ConsOfTwo(s4, a, b);
    StepReturn(s5, Pair(a, b));
    hide Step;
    Turn(st, s4, 3);
    Turn(s4, s5, 2);
    Turn(s5, Step(s5), 1);
  }

  lemma ConsOfTwo(st: VM, a: Value, b: Value)
    requires AtInstr(st, Prim(Cons)) && st.argnum == 3 && st.stack == [Closure(CONS_ID), a, b]
    ensures Step(st) == st.(stack := [Pair(a, b)], argnum := 1, ip := st.ip + 1)
  {
    assert st.stack[1..] == [a, b];
    assert st.stack[..0] + [Pair(a, b)] == [Pair(a, b)];
    assert Step(st) == OpPrim(st, Cons);
  }

  /** `cons` gets one argument before, an error, and two after. */
  lemma SplicedBeginDisagrees()
    ensures Outcome(SPLICED, [], 10).Failed?
    ensures Outcome(Threaded(SPLICED), [], 6) == Done(Pair(Int(1), Int(2)))
  {
    SplicedInterpreted();
    SplicedCode();
    hide Threaded, Step;
    var c := Threaded(SPLICED);
    EntersCode(c, []);
    var st := CallApply(Calling(c, []));
    PushesCons(st, Int(1), Int(2));
    TailCallsCons(After(st, 3), Closure(FIRST_FREE), Int(1), Int(2));
    hide After;
    AfterSum(st, 3, 3);
  }
}
