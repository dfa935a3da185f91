/** The closure compiler: scope analysis and code generation, as functions. */
module Compiler {
  import opened Values
  import opened EnvStore

  datatype Primitive = Add | Sub | Mul | Div | Less | Greater | Equal | IsNull | IsPair | Cons | Car | Cdr

  /** Threaded code. The second line holds operations that only built-in closures use. */
  datatype Instr =
    | DoCall(arg: nat) | DoTailCall(arg: nat)
    | JumpIfFalse(target: nat) | Jump(target: nat)
    | PushConst(value: Value) | ClosureRef(slot: nat) | StackRef(slot: nat) | ReturnLast
    | Return | Prim(op: Primitive) | InternDefine | InternSet | InternIf

  datatype ScopeNode = Parameter(location: nat) | Local(location: nat) | Captured(location: nat)

  datatype ClosedVar = ClosedVar(sym: Value, node: NodeRef)

  datatype Scope = Scope(table: map<Value, ScopeNode>, closed: seq<ClosedVar>)

  /** `is_runtime_token`: the symbol is bound to this special form. */
  predicate IsToken(g: Bindings, v: Value, kind: RunType) {
    v.Sym? && v in g && g[v].value == Run(kind)
  }

  /** `is_run_statement`: a list headed by such a symbol. */
  predicate IsStatement(g: Bindings, e: Value, kind: RunType) {
    e.Pair? && IsToken(g, e.car, kind)
  }

  // ---------- scope analysis ----------

  /** The slot already given to `sym`, searching the newest first. */
  function FindClosed(closed: seq<ClosedVar>, sym: Value): (r: Option<nat>)
    ensures r.Some? ==> r.value < |closed| && closed[r.value].sym == sym
    ensures r.None? ==> forall i | 0 <= i < |closed| :: closed[i].sym != sym
  {
    if closed == [] then None
    else if closed[|closed| - 1].sym == sym then Some(|closed| - 1)
    else FindClosed(closed[..|closed| - 1], sym)
  }

  /** `scope_handle_symbol`; `None` when the symbol is bound nowhere. */
  function HandleSymbol(g: Bindings, s: Scope, sym: Value): Option<Scope> {
    if sym in s.table then Some(s)
    else if sym !in g then None
    else
      match FindClosed(s.closed, sym)
      case Some(k) => Some(s.(table := s.table[sym := Captured(k)]))
      case None =>
        Some(Scope(s.table[sym := Captured(|s.closed|)], s.closed + [ClosedVar(sym, g[sym].node)]))
  }

  /** `gen_sub_scope`: every symbol of a tree, except `if`; an inner `define` is an error. */
  function GenSubScope(g: Bindings, s: Scope, v: Value): Option<Scope>
    decreases v
  {
    if !v.Pair? then Some(s)
    else
      var s' :=
        if v.car.Sym? then
          if IsToken(g, v.car, If) then Some(s)
          else if IsToken(g, v.car, Define) then None
          else HandleSymbol(g, s, v.car)
        else GenSubScope(g, s, v.car);
      if s'.None? then None else GenSubScope(g, s'.value, v.cdr)
  }

  function AddParams(table: map<Value, ScopeNode>, args: Value, loc: nat): map<Value, ScopeNode>
    decreases args
  {
    if args.Pair? then AddParams(table[args.car := Parameter(loc)], args.cdr, loc + 1) else table
  }

  /** Each leading `(define name ...)` has a name to read. */
  predicate DefinesHaveNames(g: Bindings, body: Value) {
    body.Pair? && IsStatement(g, body.car, Define) ==>
      body.car.cdr.Pair? && DefinesHaveNames(g, body.cdr)
  }

  function AddDefines(g: Bindings, table: map<Value, ScopeNode>, body: Value, loc: nat): map<Value, ScopeNode>
    requires DefinesHaveNames(g, body)
    decreases body
  {
    if body.Pair? && IsStatement(g, body.car, Define) then
      AddDefines(g, table[body.car.cdr.car := Local(loc)], body.cdr, loc + 1)
    else table
  }

  /** The initialisers of the leading defines, then everything after them. */
  function GenBodyScope(g: Bindings, s: Scope, body: Value): Option<Scope>
    requires DefinesHaveNames(g, body)
    decreases body
  {
    if body.Pair? && IsStatement(g, body.car, Define) then
      var s' := GenSubScope(g, s, body.car.cdr.cdr);
      if s'.None? then None else GenBodyScope(g, s'.value, body.cdr)
    else GenSubScope(g, s, body)
  }

  /** `gen_top_scope` for a root scope. */
  function GenTopScope(g: Bindings, args: Value, body: Value): Option<Scope>
    requires DefinesHaveNames(g, body)
  {
    var table := AddDefines(g, AddParams(map[], args, 1), body, ListLength(args) + 1);
    GenBodyScope(g, Scope(table, []), body)
  }

  // ---------- code generation ----------

  type Table = map<Value, ScopeNode>

  /** `compile_value`: one push. Symbols that scope analysis skipped are constants. */
  function CompAtom(g: Bindings, t: Table, v: Value): Instr {
    if v.Sym? && !IsToken(g, v, If) && v in t then
      if t[v].Captured? then ClosureRef(t[v].location) else StackRef(t[v].location)
    else PushConst(v)
  }

  /** The arms of an `if` at index `ip`: a false test skips the first arm, which in turn skips the second. */
  function Branches(test: seq<Instr>, left: seq<Instr>, right: seq<Instr>, ip: nat): seq<Instr> {
    var second := ip + |test| + |left| + 2;
    test + [JumpIfFalse(second)] + left + [Jump(second + |right|)] + right
  }

  /** Code for one list element, `d` values above the activation's base, placed at index `ip`. */
  function CompElem(g: Bindings, t: Table, e: Value, tail: bool, d: nat, ip: nat): seq<Instr>
    decreases e, 1
  {
    if !e.Pair? then [CompAtom(g, t, e)]
    else if IsStatement(g, e, If) then
      var test := if e.cdr.Pair? then CompElem(g, t, e.cdr.car, false, d, ip) else [];
      var left :=
        if e.cdr.Pair? && e.cdr.cdr.Pair? then CompElem(g, t, e.cdr.cdr.car, tail, d, ip + |test| + 1) else [];
      var second := ip + |test| + |left| + 2;
      var right :=
        if e.cdr.Pair? && e.cdr.cdr.Pair? && e.cdr.cdr.cdr.Pair? then
          CompElem(g, t, e.cdr.cdr.cdr.car, tail, d, second)
        else [];
      Branches(test, left, right, ip)
    else if IsStatement(g, e, Define) then
      if e.cdr.Pair? then CompList(g, t, e.cdr.cdr, false, d, ip) else []
    else if IsStatement(g, e, Begin) then
      CompList(g, t, e.cdr, tail, d, ip)
    else
      CompList(g, t, e, false, d, ip) + [if tail then DoTailCall(d) else DoCall(d)]
  }

  /** `compile_expression_list`: each element adds one to the static depth. */
  function CompList(g: Bindings, t: Table, list: Value, tail: bool, d: nat, ip: nat): seq<Instr>
    decreases list, 0
  {
    if !list.Pair? then []
    else
      var first := CompElem(g, t, list.car, tail && list.cdr == Null, d, ip);
      first + CompList(g, t, list.cdr, tail, d + 1, ip + |first|)
  }

  // ---------- the static depth ----------

  /** `stack_ptr` at the moment each instruction of an element's code is emitted: how many slots the compiler takes
      the activation to have when control reaches the instruction. */
  function ElemDepths(g: Bindings, e: Value, d: nat): seq<nat>
    decreases e, 1
  {
    if !e.Pair? then [d]
    else if IsStatement(g, e, If) then
      ((((if e.cdr.Pair? then ElemDepths(g, e.cdr.car, d) else [])
          + [d + 1])
          + (if e.cdr.Pair? && e.cdr.cdr.Pair? then ElemDepths(g, e.cdr.cdr.car, d) else []))
          + [d + 1])
          + (if e.cdr.Pair? && e.cdr.cdr.Pair? && e.cdr.cdr.cdr.Pair? then ElemDepths(g, e.cdr.cdr.cdr.car, d) else [])
    else if IsStatement(g, e, Define) then
      if e.cdr.Pair? then ListDepths(g, e.cdr.cdr, d) else []
    else if IsStatement(g, e, Begin) then ListDepths(g, e.cdr, d)
    else ListDepths(g, e, d) + [d + ListLength(e)]
  }

  function ListDepths(g: Bindings, list: Value, d: nat): seq<nat>
    decreases list, 0
  {
    if list.Pair? then ElemDepths(g, list.car, d) + ListDepths(g, list.cdr, d + 1) else []
  }

  /** `stack_ptr` along a whole closure's code. */
  function StaticDepths(g: Bindings, args: Value, body: Value): seq<nat> {
    ListDepths(g, body, ListLength(args) + 1) + [ListLength(args) + 1 + ListLength(body)]
  }

  /** For each instruction the number of operands it takes from the stack as a call, callee included; 0 for others. */
  function ElemOperands(g: Bindings, e: Value): seq<nat>
    decreases e, 1
  {
    if !e.Pair? then [0]
    else if IsStatement(g, e, If) then
      ((((if e.cdr.Pair? then ElemOperands(g, e.cdr.car) else [])
          + [0])
          + (if e.cdr.Pair? && e.cdr.cdr.Pair? then ElemOperands(g, e.cdr.cdr.car) else []))
          + [0])
          + (if e.cdr.Pair? && e.cdr.cdr.Pair? && e.cdr.cdr.cdr.Pair? then ElemOperands(g, e.cdr.cdr.cdr.car) else [])
    else if IsStatement(g, e, Define) then
      if e.cdr.Pair? then ListOperands(g, e.cdr.cdr) else []
    else if IsStatement(g, e, Begin) then ListOperands(g, e.cdr)
    else ListOperands(g, e) + [ListLength(e)]
  }

  function ListOperands(g: Bindings, list: Value): seq<nat>
    decreases list, 0
  {
    if list.Pair? then ElemOperands(g, list.car) + ListOperands(g, list.cdr) else []
  }

  /** Every `if` the generator visits has a test and a branch to read. */
  predicate ElemHasArms(g: Bindings, e: Value)
    decreases e, 1
  {
    if !e.Pair? then true
    else if IsStatement(g, e, If) then
      && e.cdr.Pair? && e.cdr.cdr.Pair?
      && ElemHasArms(g, e.cdr.car) && ElemHasArms(g, e.cdr.cdr.car)
      && (e.cdr.cdr.cdr.Pair? ==> ElemHasArms(g, e.cdr.cdr.cdr.car))
    else if IsStatement(g, e, Define) then e.cdr.Pair? ==> ListHasArms(g, e.cdr.cdr)
    else if IsStatement(g, e, Begin) then ListHasArms(g, e.cdr)
    else ListHasArms(g, e)
  }

  predicate ListHasArms(g: Bindings, list: Value)
    decreases list, 0
  {
    list.Pair? ==> ElemHasArms(g, list.car) && ListHasArms(g, list.cdr)
  }

  datatype Compiled =
    | Code(code: seq<Instr>, closed: seq<NodeRef>)
    | ScopeFailure
    | NullDereference

  function NodesOf(closed: seq<ClosedVar>): (nodes: seq<NodeRef>)
    ensures |nodes| == |closed|
    ensures forall i | 0 <= i < |closed| :: nodes[i] == closed[i].node
  {
    seq(|closed|, i requires 0 <= i < |closed| => closed[i].node)
  }

  /** `vm_compile_closure`. */
  function CompileClosure(g: Bindings, args: Value, body: Value): Compiled {
    if !DefinesHaveNames(g, body) then NullDereference
    else
      match GenTopScope(g, args, body)
      case None => ScopeFailure
      case Some(s) =>
        if !ListHasArms(g, body) then NullDereference
        else
          Code(CompList(g, s.table, body, true, ListLength(args) + 1, 0) + [ReturnLast], NodesOf(s.closed))
  }
}
