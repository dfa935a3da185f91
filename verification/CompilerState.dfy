/** The compiler as the source runs it: one state updated in place, jumps patched after the fact. */
module CompilerState {
  import opened Values
  import opened EnvStore
  import opened Compiler
  import opened CodeLayout

  /** The first hit counting slots down from the newest is what `FindClosed` finds. */
  lemma FindClosedIs(closed: seq<ClosedVar>, sym: Value, k: nat)
    requires k < |closed| && closed[k].sym == sym && forall i | k < i < |closed| :: closed[i].sym != sym
    ensures FindClosed(closed, sym) == Some(k)
  {
  }

  lemma FindClosedNone(closed: seq<ClosedVar>, sym: Value)
    requires forall i | 0 <= i < |closed| :: closed[i].sym != sym
    ensures FindClosed(closed, sym) == None
  {
  }

  lemma DefineStep(g: Bindings, table: Table, body: Value, loc: nat)
    requires DefinesHaveNames(g, body) && body.Pair? && IsStatement(g, body.car, Define)
    ensures body.car.Pair? && body.car.cdr.Pair? && DefinesHaveNames(g, body.cdr)
    ensures AddDefines(g, table, body, loc) == AddDefines(g, table[body.car.cdr.car := Local(loc)], body.cdr, loc + 1)
  {
  }

  lemma DefineStop(g: Bindings, table: Table, body: Value, loc: nat)
    requires DefinesHaveNames(g, body) && !(body.Pair? && IsStatement(g, body.car, Define))
    ensures AddDefines(g, table, body, loc) == table
  {
  }

  lemma ArmsOfIf(g: Bindings, e: Value)
    requires IsStatement(g, e, If) && ElemHasArms(g, e)
    ensures e.Pair? && e.cdr.Pair? && ElemHasArms(g, e.cdr.car)
    ensures e.cdr.cdr.Pair? && ElemHasArms(g, e.cdr.cdr.car)
    ensures e.cdr.cdr.cdr.Pair? ==> ElemHasArms(g, e.cdr.cdr.cdr.car)
  {
  }

  lemma PatchJumps(
    before: seq<Instr>, test: seq<Instr>, left: seq<Instr>, right: seq<Instr>, now: seq<Instr>, a: Instr, b: Instr)
    requires now == before + test + ([JumpIfFalse(0)] + left) + ([Jump(0)] + right)
    ensures var i := |before| + |test|;
      now[i := a][i + 1 + |left| := b] == before + (test + [a] + left + [b] + right)
  {
  }

  lemma ListCode(g: Bindings, t: Table, list: Value, tail: bool, d: nat, ip: nat)
    requires list.Pair?
    ensures var first := CompElem(g, t, list.car, tail && list.cdr == Null, d, ip);
      CompList(g, t, list, tail, d, ip) == first + CompList(g, t, list.cdr, tail, d + 1, ip + |first|)
  {
  }

  lemma ListCodeEnds(g: Bindings, t: Table, list: Value, tail: bool, d: nat, ip: nat)
    requires !list.Pair?
    ensures CompList(g, t, list, tail, d, ip) == []
  {
  }

  lemma DepthsOfIf(g: Bindings, e: Value, d: nat, before: seq<nat>)
    requires IsStatement(g, e, If) && e.cdr.Pair? && e.cdr.cdr.Pair?
    ensures before + ElemDepths(g, e.cdr.car, d) + [d + 1] + ElemDepths(g, e.cdr.cdr.car, d) + [d + 1]
      + (if e.cdr.cdr.cdr.Pair? then ElemDepths(g, e.cdr.cdr.cdr.car, d) else []) == before + ElemDepths(g, e, d)
  {
    hide ListDepths;
    var d1, d2 := ElemDepths(g, e.cdr.car, d), ElemDepths(g, e.cdr.cdr.car, d);
    var d3 := if e.cdr.cdr.cdr.Pair? then ElemDepths(g, e.cdr.cdr.cdr.car, d) else [];
    assert ElemDepths(g, e, d) == (((d1 + [d + 1]) + d2) + [d + 1]) + d3;
  }

  lemma ArmsJoined(before: seq<Instr>, test: seq<Instr>, jump: Instr, left: seq<Instr>)
    ensures before + test + [jump] + left == before + test + ([jump] + left)
  {
  }

  lemma SameJoined<T>(all: seq<T>, before: seq<T>, first: seq<T>, rest: seq<T>, now: seq<T>)
    requires all == before + (first + rest) && now == before + first
    ensures all == now + rest
  {
  }

  /** The code and depths of a list that is no `if`, by what its head is. */
  lemma FormCode(g: Bindings, t: Table, e: Value, tail: bool, d: nat, ip: nat)
    requires e.Pair? && !IsStatement(g, e, If) && ElemHasArms(g, e)
    ensures var code, depths := CompElem(g, t, e, tail, d, ip), ElemDepths(g, e, d);
      if IsStatement(g, e, Define) then
        if e.cdr.Pair? then
          && ListHasArms(g, e.cdr.cdr)
          && code == CompList(g, t, e.cdr.cdr, false, d, ip) && depths == ListDepths(g, e.cdr.cdr, d)
        else code == [] && depths == []
      else if IsStatement(g, e, Begin) then
        ListHasArms(g, e.cdr) && code == CompList(g, t, e.cdr, tail, d, ip) && depths == ListDepths(g, e.cdr, d)
      else
        && ListHasArms(g, e)
        && code == CompList(g, t, e, false, d, ip) + [if tail then DoTailCall(d) else DoCall(d)]
        && depths == ListDepths(g, e, d) + [d + ListLength(e)]
  {
  }

  class CompState {
    const envs: seq<EnvFrame>
    const env: nat
    var table: map<Value, ScopeNode>
    var closedVars: seq<ClosedVar>
    var instrs: seq<Instr>
    var stackPtr: nat
    var closurePtr: nat
    var instrPtr: nat
    /** `stack_ptr` at the moment each instruction was emitted. */
    ghost var depths: seq<nat>

    ghost predicate Valid()
      reads this
    {
      closurePtr == |closedVars| && instrPtr == |instrs|
    }

    ghost function G(): Bindings {
      Flatten(envs, env)
    }

    /** The scope built so far, closed variables in slot order. */
    ghost function TheScope(): Scope
      reads this
    {
      Scope(table, Reversed(closedVars))
    }

    constructor (envs: seq<EnvFrame>, env: nat, depth: nat)
      ensures Valid() && this.envs == envs && this.env == env
      ensures TheScope() == Scope(map[], []) && instrs == [] && depths == [] && stackPtr == depth
    {
      this.envs, this.env := envs, env;
      table, closedVars, instrs := map[], [], [];
      stackPtr, closurePtr, instrPtr, depths := depth, 0, 0, [];
    }

    method IsFormToken(v: Value, kind: RunType) returns (yes: bool)
      ensures yes == IsToken(G(), v, kind)
    {
      FlattenIsFind(envs, env, v);
      yes := v.Sym? && Lookup(envs, env, v) == Some(Run(kind));
    }

    method IsForm(e: Value, kind: RunType) returns (yes: bool)
      ensures yes == IsStatement(G(), e, kind)
    {
      yes := false;
      if e.Pair? { yes := IsFormToken(e.car, kind); }
    }

    // ---------- scope analysis ----------

    /** The slot of `sym`, allocated if it has none. */
    method AddClosureNode(node: NodeRef, sym: Value) returns (slot: nat)
      requires Valid()
      modifies `closedVars, `closurePtr
      ensures Valid()
      ensures var closed := Reversed(old(closedVars));
        match FindClosed(closed, sym)
        case Some(k) => slot == k && Reversed(closedVars) == closed
        case None => slot == |closed| && Reversed(closedVars) == closed + [ClosedVar(sym, node)]
    {
      ghost var closed := Reversed(closedVars);
      var i, temp := closurePtr, 0;
      while temp < |closedVars|
        invariant temp <= |closedVars| && i == |closedVars| - temp
        invariant forall k | i <= k < |closed| :: closed[k].sym != sym
      {
        i := i - 1;
        if closedVars[temp].sym == sym {
          FindClosedIs(closed, sym, i);
          return i;
        }
        temp := temp + 1;
      }
      FindClosedNone(closed, sym);
      slot := closurePtr;
      closedVars := [ClosedVar(sym, node)] + closedVars;
      closurePtr := closurePtr + 1;
    }

    method ScopeHandleSymbol(sym: Value) returns (found: bool)
      requires Valid()
      modifies `table, `closedVars, `closurePtr
      ensures Valid()
      ensures match HandleSymbol(G(), old(TheScope()), sym)
              case Some(s) => found && TheScope() == s
              case None => !found
    {
      if sym in table { return true; }
      var node := FindNode(envs, env, sym);
      FlattenIsFind(envs, env, sym);
      if node.None? { return false; }
      var slot := AddClosureNode(node.value, sym);
      table := table[sym := Captured(slot)];
      found := true;
    }

    method GenSubScope(v: Value) returns (ok: bool)
      requires Valid()
      modifies `table, `closedVars, `closurePtr
      ensures Valid()
      ensures match Compiler.GenSubScope(G(), old(TheScope()), v)
              case Some(s) => ok && TheScope() == s
              case None => !ok
      decreases v
    {
      var comp := v;
      while comp.Pair?
        invariant Valid()
        invariant Compiler.GenSubScope(G(), TheScope(), comp) == Compiler.GenSubScope(G(), old(TheScope()), v)
        invariant comp == v || comp < v
        decreases comp
      {
        if comp.car.Sym? {
          var isIf := IsFormToken(comp.car, If);
          var isDefine := IsFormToken(comp.car, Define);
          if isIf {
          } else if isDefine {
            return false;
          } else {
            var found := ScopeHandleSymbol(comp.car);
            if !found { return false; }
          }
        } else {
          var inner := GenSubScope(comp.car);
          if !inner { return false; }
        }
        comp := comp.cdr;
      }
      ok := true;
    }

    method AddParamNodes(args: Value) returns (sp: nat)
      modifies `table
      ensures sp == 1 + ListLength(args) && table == AddParams(old(table), args, 1)
    {
      sp := 1;
      var syms := args;
      while syms.Pair?
        invariant sp + ListLength(syms) == 1 + ListLength(args)
        invariant AddParams(table, syms, sp) == AddParams(old(table), args, 1)
        decreases syms
      {
        table := table[syms.car := Parameter(sp)];
        sp := sp + 1;
        syms := syms.cdr;
      }
    }

    method LeadsWithDefine(body: Value) returns (yes: bool)
      ensures yes == (body.Pair? && IsStatement(G(), body.car, Define))
    {
      yes := false;
      if body.Pair? { yes := IsForm(body.car, Define); }
    }

    method AddDefineNodes(body: Value, loc: nat)
      requires DefinesHaveNames(G(), body)
      modifies `table
      ensures table == AddDefines(G(), old(table), body, loc)
    {
      hide *;
      var sp, comp := loc, body;
      var leading := LeadsWithDefine(comp);
      while leading
        invariant DefinesHaveNames(G(), comp) && leading == (comp.Pair? && IsStatement(G(), comp.car, Define))
        invariant AddDefines(G(), table, comp, sp) == AddDefines(G(), old(table), body, loc)
        decreases comp
      {
        DefineStep(G(), table, comp, sp);
        table := table[comp.car.cdr.car := Local(sp)];
        sp := sp + 1;
        comp := comp.cdr;
        leading := LeadsWithDefine(comp);
      }
      DefineStop(G(), table, comp, sp);
    }

    /** The initialisers of the leading defines, and everything after them. */
    method GenBodyScope(body: Value) returns (ok: bool)
      requires Valid() && DefinesHaveNames(G(), body)
      modifies `table, `closedVars, `closurePtr
      ensures Valid()
      ensures match Compiler.GenBodyScope(G(), old(TheScope()), body)
              case Some(s) => ok && TheScope() == s
              case None => !ok
    {
      hide TheScope, G, Compiler.GenSubScope;
      var comp := body;
      var leading := LeadsWithDefine(comp);
      while leading
        invariant Valid() && DefinesHaveNames(G(), comp)
        invariant leading == (comp.Pair? && IsStatement(G(), comp.car, Define))
        invariant Compiler.GenBodyScope(G(), TheScope(), comp) == Compiler.GenBodyScope(G(), old(TheScope()), body)
        decreases comp
      {
        var inner := GenSubScope(comp.car.cdr.cdr);
        if !inner { return false; }
        comp := comp.cdr;
        leading := LeadsWithDefine(comp);
      }
      ok := GenSubScope(comp);
    }

    method GenTopScope(args: Value, body: Value) returns (ok: bool)
      requires Valid() && TheScope() == Scope(map[], []) && DefinesHaveNames(G(), body)
      modifies `table, `closedVars, `closurePtr
      ensures Valid()
      ensures match Compiler.GenTopScope(G(), args, body)
              case Some(s) => ok && TheScope() == s
              case None => !ok
    {
      var sp := AddParamNodes(args);
      AddDefineNodes(body, sp);
      ok := GenBodyScope(body);
    }

    // ---------- code generation ----------

    /** The new node's index, by which a jump is patched later. */
    method AddInstr(instr: Instr) returns (index: nat)
      requires Valid()
      modifies `instrs, `instrPtr, `depths
      ensures Valid() && instrs == old(instrs) + [instr] && index == |old(instrs)|
      ensures depths == old(depths) + [stackPtr]
    {
      index := instrPtr;
      instrs, depths := instrs + [instr], depths + [stackPtr];
      instrPtr := instrPtr + 1;
    }

    method CompileValue(v: Value)
      requires Valid() && !v.Pair?
      modifies `instrs, `instrPtr, `stackPtr, `depths
      ensures Valid() && instrs == old(instrs) + [CompAtom(G(), table, v)] && stackPtr == old(stackPtr) + 1
      ensures depths == old(depths) + [old(stackPtr)]
    {
      var isIf := IsFormToken(v, If);
      if v.Sym? && !isIf && v in table {
        match table[v]
        case Parameter(loc) => var _ := AddInstr(StackRef(loc));
        case Local(loc) => var _ := AddInstr(StackRef(loc));
        case Captured(loc) => var _ := AddInstr(ClosureRef(loc));
      } else {
        var _ := AddInstr(PushConst(v));
      }
      stackPtr := stackPtr + 1;
    }

    /** One list element. A list takes one slot of static depth, whatever its code did to the count. */
    method CompileElement(e: Value, tail: bool)
      requires Valid() && ElemHasArms(G(), e)
      modifies `instrs, `instrPtr, `stackPtr, `depths
      ensures Valid()
      ensures instrs == old(instrs) + CompElem(G(), table, e, tail, old(stackPtr), |old(instrs)|)
      ensures depths == old(depths) + ElemDepths(G(), e, old(stackPtr))
      ensures stackPtr == old(stackPtr) + 1
      decreases e, 3
    {
      if !e.Pair? {
        CompileValue(e);
        return;
      }
      CompileForm(e, tail);
    }

    /** A list: a special form or a call. */
    method CompileForm(e: Value, tail: bool)
      requires Valid() && e.Pair? && ElemHasArms(G(), e)
      modifies `instrs, `instrPtr, `stackPtr, `depths
      ensures Valid()
      ensures instrs == old(instrs) + CompElem(G(), table, e, tail, old(stackPtr), |old(instrs)|)
      ensures depths == old(depths) + ElemDepths(G(), e, old(stackPtr))
      ensures stackPtr == old(stackPtr) + 1
      decreases e, 2
    {
      hide CompElem, CompList, ElemDepths, ListDepths, ElemHasArms, ListHasArms, G, IsStatement;
      var sp := stackPtr;
      var isIf := IsForm(e, If);
      var isDefine := IsForm(e, Define);
      var isBegin := IsForm(e, Begin);
      if !isIf { FormCode(G(), table, e, tail, sp, |instrs|); }
      if isIf {
        CompileIf(e, tail);
      } else if isDefine {
        if e.cdr.Pair? { CompileExpressionList(e.cdr.cdr, false); }
      } else if isBegin {
        CompileExpressionList(e.cdr, tail);
      } else {
        CompileExpressionList(e, false);
        var _ := AddInstr(if tail then DoTailCall(sp) else DoCall(sp));
      }
      stackPtr := sp + 1;
    }

    /** An arm and the jump after its predecessor; the arm starts from the depth before the `if`. */
    method CompileArm(arm: Value, tail: bool, jump: Instr, sp: nat) returns (index: nat)
      requires Valid() && ElemHasArms(G(), arm)
      modifies `instrs, `instrPtr, `stackPtr, `depths
      ensures Valid() && index == |old(instrs)|
      ensures instrs == old(instrs) + [jump] + CompElem(G(), table, arm, tail, sp, |old(instrs)| + 1)
      ensures depths == old(depths) + [old(stackPtr)] + ElemDepths(G(), arm, sp) && stackPtr == sp + 1
      decreases arm, 4
    {
      index := AddInstr(jump);
      stackPtr := sp;
      CompileElement(arm, tail);
    }

    /** The second arm and the jump over it, if there is one. */
    method CompileSecondArm(e: Value, tail: bool, sp: nat) returns (index: nat)
      requires Valid() && e.Pair? && e.cdr.Pair? && e.cdr.cdr.Pair?
      requires e.cdr.cdr.cdr.Pair? ==> ElemHasArms(G(), e.cdr.cdr.cdr.car)
      modifies `instrs, `instrPtr, `stackPtr, `depths
      ensures Valid() && index == |old(instrs)|
      ensures instrs == old(instrs) + ([Jump(0)] +
        if e.cdr.cdr.cdr.Pair? then CompElem(G(), table, e.cdr.cdr.cdr.car, tail, sp, index + 1) else [])
      ensures depths == old(depths) + [old(stackPtr)] +
        if e.cdr.cdr.cdr.Pair? then ElemDepths(G(), e.cdr.cdr.cdr.car, sp) else []
      decreases e, 0
    {
      hide CompElem, ElemHasArms, G, ElemDepths;
      if e.cdr.cdr.cdr.Pair? {
        index := CompileArm(e.cdr.cdr.cdr.car, tail, Jump(0), sp);
      } else {
        index := AddInstr(Jump(0));
      }
    }

    /** The test, the jump to patch, and the first arm. */
    method CompileFirstArm(e: Value, tail: bool) returns (index: nat)
      requires Valid() && e.Pair? && e.cdr.Pair? && e.cdr.cdr.Pair?
      requires ElemHasArms(G(), e.cdr.car) && ElemHasArms(G(), e.cdr.cdr.car)
      modifies `instrs, `instrPtr, `stackPtr, `depths
      ensures Valid() && stackPtr == old(stackPtr) + 1
      ensures var test := CompElem(G(), table, e.cdr.car, false, old(stackPtr), |old(instrs)|);
        && index == |old(instrs)| + |test|
        && instrs == old(instrs) + test
             + [JumpIfFalse(0)] + CompElem(G(), table, e.cdr.cdr.car, tail, old(stackPtr), index + 1)
      ensures depths == old(depths) + ElemDepths(G(), e.cdr.car, old(stackPtr))
                          + [old(stackPtr) + 1] + ElemDepths(G(), e.cdr.cdr.car, old(stackPtr))
      decreases e, 0
    {
      hide CompElem, ElemHasArms, G, ElemDepths, CompList, ListDepths, ListHasArms;
      var sp := stackPtr;
      CompileElement(e.cdr.car, false);
      index := CompileArm(e.cdr.cdr.car, tail, JumpIfFalse(0), sp);
    }

    /** Both jumps are emitted with operand 0, and patched when their targets are known. */
    method CompileIf(e: Value, tail: bool)
      requires Valid() && IsStatement(G(), e, If) && ElemHasArms(G(), e)
      modifies `instrs, `instrPtr, `stackPtr, `depths
      ensures Valid()
      ensures instrs == old(instrs) + CompElem(G(), table, e, tail, old(stackPtr), |old(instrs)|)
      ensures depths == old(depths) + ElemDepths(G(), e, old(stackPtr))
      decreases e, 1
    {
      hide CompElem, ElemHasArms, G, IsStatement, ElemDepths, CompList, ListDepths, ListHasArms, Flatten, Branches;
      ArmsOfIf(G(), e);
      var sp := stackPtr;
      ghost var before, depths0 := instrs, depths;
      ghost var test := CompElem(G(), table, e.cdr.car, false, sp, |before|);
      ghost var left := CompElem(G(), table, e.cdr.cdr.car, tail, sp, |before| + |test| + 1);
      var falseJump := CompileFirstArm(e, tail);
      var endJump := CompileSecondArm(e, tail, sp);
      ghost var right :=
        if e.cdr.cdr.cdr.Pair? then CompElem(G(), table, e.cdr.cdr.cdr.car, tail, sp, endJump + 1) else [];
      DepthsOfIf(G(), e, sp, depths0);
      PatchIf(e, tail, sp, before, test, left, right, falseJump, endJump);
    }

    method PatchIf(
      e: Value, tail: bool, sp: nat, ghost before: seq<Instr>, ghost test: seq<Instr>, ghost left: seq<Instr>,
      ghost right: seq<Instr>, falseJump: nat, endJump: nat)
      requires Valid() && IsStatement(G(), e, If) && ElemHasArms(G(), e) && e.cdr.Pair? && e.cdr.cdr.Pair?
      requires instrs == before + test + [JumpIfFalse(0)] + left + ([Jump(0)] + right)
      requires falseJump == |before| + |test| && endJump == falseJump + 1 + |left|
      requires test == CompElem(G(), table, e.cdr.car, false, sp, |before|)
      requires left == CompElem(G(), table, e.cdr.cdr.car, tail, sp, |before| + |test| + 1)
      requires right == if e.cdr.cdr.cdr.Pair? then CompElem(G(), table, e.cdr.cdr.cdr.car, tail, sp, endJump + 1)
                        else []
      modifies `instrs
      ensures Valid()
      ensures instrs == before + CompElem(G(), table, e, tail, sp, |before|)
    {
      hide CompElem, ElemHasArms, G, IsStatement;
      ghost var a, b, c := IfCode(G(), table, e, tail, sp, |before|);
      ArmsJoined(before, test, JumpIfFalse(0), left);
      PatchJumps(before, test, left, right, instrs, JumpIfFalse(endJump + 1), Jump(|instrs|));
      instrs := instrs[falseJump := JumpIfFalse(endJump + 1)];
      instrs := instrs[endJump := Jump(instrPtr)];
    }

    method CompileExpressionList(list: Value, tail: bool)
      requires Valid() && ListHasArms(G(), list)
      modifies `instrs, `instrPtr, `stackPtr, `depths
      ensures Valid()
      ensures instrs == old(instrs) + CompList(G(), table, list, tail, old(stackPtr), |old(instrs)|)
      ensures depths == old(depths) + ListDepths(G(), list, old(stackPtr))
      ensures stackPtr == old(stackPtr) + ListLength(list)
      decreases list, 0
    {
      hide CompList, CompElem, G, ElemHasArms, ElemDepths;
      var comp := list;
      ghost var allDepths := ListDepths(G(), list, stackPtr);
      ghost var whole := CompList(G(), table, list, tail, stackPtr, |instrs|);
      while comp.Pair?
        invariant Valid() && ListHasArms(G(), comp) && (comp == list || comp < list)
        invariant old(instrs) + whole == instrs + CompList(G(), table, comp, tail, stackPtr, |instrs|)
        invariant old(depths) + allDepths == depths + ListDepths(G(), comp, stackPtr)
        invariant stackPtr + ListLength(comp) == old(stackPtr) + ListLength(list)
        decreases comp
      {
        ghost var before, depthsBefore, sp := instrs, depths, stackPtr;
        ListCode(G(), table, comp, tail, stackPtr, |instrs|);
        CompileElement(comp.car, tail && comp.cdr == Null);
        SameJoined(old(instrs) + whole, before, instrs[|before|..],
                   CompList(G(), table, comp.cdr, tail, stackPtr, |instrs|), instrs);
        SameJoined(old(depths) + allDepths, depthsBefore, ElemDepths(G(), comp.car, sp),
                   ListDepths(G(), comp.cdr, stackPtr), depths);
        comp := comp.cdr;
      }
      ListCodeEnds(G(), table, comp, tail, stackPtr, |instrs|);
    }

    // ---------- the finished closure ----------

    /** `store_closed_vars`: walk newest-first, fill the array from its end. */
    method StoreClosedVars() returns (closures: array<NodeRef>)
      requires Valid()
      ensures fresh(closures) && closures[..] == NodesOf(Reversed(closedVars))
    {
      closures := new NodeRef[closurePtr](_ => NodeRef(0, Null));
      ghost var closed := Reversed(closedVars);
      var i, temp := closurePtr, 0;
      while temp < |closedVars|
        invariant temp <= |closedVars| && i == |closedVars| - temp && closures.Length == |closedVars|
        invariant forall k | i <= k < |closed| :: closures[k] == closed[k].node
      {
        i := i - 1;
        closures[i] := closedVars[temp].node;
        temp := temp + 1;
      }
    }

    method StoreInstructions() returns (code: array<Instr>)
      requires Valid()
      ensures fresh(code) && code[..] == instrs
    {
      code := new Instr[instrPtr](_ => ReturnLast);
      var i := 0;
      while i < |instrs|
        invariant i <= |instrs| && code.Length == |instrs|
        invariant forall k | 0 <= k < i :: code[k] == instrs[k]
      {
        code[i] := instrs[i];
        i := i + 1;
      }
    }
  }

  /** `vm_compile_closure`, where the source reads no missing list element. */
  method CompileClosure(envs: seq<EnvFrame>, env: nat, args: Value, body: Value)
    returns (r: Compiled, ghost depths: seq<nat>)
    requires Compiler.CompileClosure(Flatten(envs, env), args, body) != NullDereference
    ensures r == Compiler.CompileClosure(Flatten(envs, env), args, body)
    ensures r.Code? ==> depths == StaticDepths(Flatten(envs, env), args, body)
  {
    hide CompList, GenTopScope, Reversed;
    var state := new CompState(envs, env, ListLength(args) + 1);
    var ok := state.GenTopScope(args, body);
    if !ok { return ScopeFailure, []; }
    state.CompileExpressionList(body, true);
    var _ := state.AddInstr(ReturnLast);
    depths := state.depths;
    var closures := state.StoreClosedVars();
    var code := state.StoreInstructions();
    r := Code(code[..], closures[..]);
  }
}
