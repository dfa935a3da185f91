/** The code of well-formed expressions, piece by piece: where each part lies, and that it is well formed in turn. */
module Layout {
  import opened Values
  import opened EnvStore
  import opened Compiler
  import opened Semantics
  import opened WellFormed
  import opened ScopeProof
  import opened Peaks
  import opened CodeLayout

  /** A closure under proof, with the names and table of its scope and the code made from it. */
  datatype Job = Job(p: Program, b: nat, id: nat, all: set<Value>, t: Table, code: seq<Instr>) {
    function G(): Bindings
      requires id < |p.clos|
    {
      Globals(p, id)
    }

    /** The meaning of an expression in this closure. */
    function Eval(locals: map<Value, Value>, e: Value, fuel: nat): Outcome<Value>
      requires id < |p.clos|
    {
      EvalExpr(p, Globals(p, id), locals, e, fuel)
    }

    /** `e` is well formed and analysed, and its code lies at `ip` for depth `d`. */
    ghost predicate ElemAt(known: set<Value>, e: Value, tail: bool, d: nat, ip: nat)
      requires id < |p.clos|
    {
      && WfExpr(p, G(), all, known, e, tail) && ElemCovered(G(), t, e)
      && PeakElem(G(), e, d) <= b
      && At(code, ip, CompElem(G(), t, e, tail, d, ip))
    }

    ghost predicate ListAt(known: set<Value>, list: Value, d: nat, ip: nat)
      requires id < |p.clos|
    {
      && WfList(p, G(), all, known, list) && ListCovered(G(), t, list)
      && PeakList(G(), list, d) <= b
      && At(code, ip, CompList(G(), t, list, false, d, ip))
    }

    ghost predicate SequenceAt(known: set<Value>, list: Value, d: nat, ip: nat)
      requires id < |p.clos|
    {
      && WfSequence(p, G(), all, known, list, true) && ListCovered(G(), t, list)
      && PeakList(G(), list, d) <= b
      && At(code, ip, CompList(G(), t, list, true, d, ip))
    }

    function ElemEnd(e: Value, tail: bool, d: nat, ip: nat): nat
      requires id < |p.clos|
    {
      ip + |CompElem(G(), t, e, tail, d, ip)|
    }

    function ListEnd(list: Value, tail: bool, d: nat, ip: nat): nat
      requires id < |p.clos|
    {
      ip + |CompList(G(), t, list, tail, d, ip)|
    }
  }

  // ---------- if ----------

  function IfTestEnd(j: Job, e: Value, d: nat, ip: nat): nat
    requires j.id < |j.p.clos| && IfShape(e)
  {
    j.ElemEnd(e.cdr.car, false, d, ip)
  }

  function IfSecond(j: Job, e: Value, tail: bool, d: nat, ip: nat): nat
    requires j.id < |j.p.clos| && IfShape(e)
  {
    j.ElemEnd(e.cdr.cdr.car, tail, d, IfTestEnd(j, e, d, ip) + 1) + 1
  }

  /** The parts of an `if` are well formed, analysed and small enough when it is. */
  lemma IfParts(j: Job, known: set<Value>, e: Value, tail: bool, d: nat)
    requires j.id < |j.p.clos| && IsStatement(j.G(), e, If) && WfExpr(j.p, j.G(), j.all, known, e, tail)
    requires ElemCovered(j.G(), j.t, e) && PeakElem(j.G(), e, d) <= j.b
    ensures IfShape(e)
    ensures var test, left, right := e.cdr.car, e.cdr.cdr.car, e.cdr.cdr.cdr.car;
      && WfExpr(j.p, j.G(), j.all, known, test, false)
      && WfExpr(j.p, j.G(), j.all, known, left, tail) && WfExpr(j.p, j.G(), j.all, known, right, tail)
      && ElemCovered(j.G(), j.t, test) && ElemCovered(j.G(), j.t, left) && ElemCovered(j.G(), j.t, right)
      && PeakElem(j.G(), test, d) <= j.b && PeakElem(j.G(), left, d) <= j.b && PeakElem(j.G(), right, d) <= j.b
  {
    assert ListCovered(j.G(), j.t, e);
    assert ListCovered(j.G(), j.t, e.cdr);
    assert ListCovered(j.G(), j.t, e.cdr.cdr);
    assert ListCovered(j.G(), j.t, e.cdr.cdr.cdr);
  }

  /** Where the parts of an `if` lie, and that both jumps go forward to where they should. */
  ghost predicate IfLaidOut(j: Job, known: set<Value>, e: Value, tail: bool, d: nat, ip: nat)
    requires j.id < |j.p.clos| && IfShape(e)
  {
    var test, second := IfTestEnd(j, e, d, ip), IfSecond(j, e, tail, d, ip);
    var end := j.ElemEnd(e, tail, d, ip);
    && j.ElemAt(known, e.cdr.car, false, d, ip)
    && test < |j.code| && j.code[test] == JumpIfFalse(second)
    && j.ElemAt(known, e.cdr.cdr.car, tail, d, test + 1)
    && second - 1 < |j.code| && j.code[second - 1] == Jump(end)
    && j.ElemAt(known, e.cdr.cdr.cdr.car, tail, d, second)
    && j.ElemEnd(e.cdr.cdr.cdr.car, tail, d, second) == end
    && ip <= test < second <= end
  }

  lemma IfLayout(j: Job, known: set<Value>, e: Value, tail: bool, d: nat, ip: nat)
    requires j.id < |j.p.clos| && IsStatement(j.G(), e, If) && j.ElemAt(known, e, tail, d, ip)
    ensures IfShape(e) && IfLaidOut(j, known, e, tail, d, ip)
  {
    hide CompElem, WfExpr, ElemCovered, PeakElem, IsStatement, At;
    IfParts(j, known, e, tail, d);
    var c1, c2, c3 := IfCode(j.G(), j.t, e, tail, d, ip);
    var second := ip + |c1| + |c2| + 2;
    PiecesAt(j.code, ip, c1, JumpIfFalse(second), c2, Jump(second + |c3|), c3);
  }

  // ---------- operands, calls and begins ----------

  lemma ListLayout(j: Job, known: set<Value>, list: Value, d: nat, ip: nat)
    requires j.id < |j.p.clos| && list.Pair? && j.ListAt(known, list, d, ip)
    ensures j.ElemAt(known, list.car, false, d, ip)
    ensures j.ListAt(known, list.cdr, d + 1, j.ElemEnd(list.car, false, d, ip))
    ensures j.ListEnd(list, false, d, ip) == j.ListEnd(list.cdr, false, d + 1, j.ElemEnd(list.car, false, d, ip))
  {
    hide CompElem, WfExpr, ElemCovered, PeakElem, At;
    var first := CompElem(j.G(), j.t, list.car, false, d, ip);
    AtConcat(j.code, ip, first, CompList(j.G(), j.t, list.cdr, false, d + 1, ip + |first|));
  }

  ghost predicate IsCall(g: Bindings, e: Value) {
    e.Pair? && !IsStatement(g, e, If) && !IsStatement(g, e, Begin) && !IsStatement(g, e, Define)
  }

  lemma CallParts(j: Job, known: set<Value>, e: Value, tail: bool, d: nat, ip: nat)
    requires j.id < |j.p.clos| && IsCall(j.G(), e) && WfExpr(j.p, j.G(), j.all, known, e, tail)
    requires ElemCovered(j.G(), j.t, e)
    ensures WfList(j.p, j.G(), j.all, known, e) && ListCovered(j.G(), j.t, e)
    ensures PeakElem(j.G(), e, d) == PeakList(j.G(), e, d)
    ensures CompElem(j.G(), j.t, e, tail, d, ip) ==
      CompList(j.G(), j.t, e, false, d, ip) + [if tail then DoTailCall(d) else DoCall(d)]
  {
  }

  lemma CallLayout(j: Job, known: set<Value>, e: Value, tail: bool, d: nat, ip: nat)
    requires j.id < |j.p.clos| && IsCall(j.G(), e) && j.ElemAt(known, e, tail, d, ip)
    ensures j.ListAt(known, e, d, ip)
    ensures var end := j.ListEnd(e, false, d, ip);
      && end < |j.code| && j.code[end] == (if tail then DoTailCall(d) else DoCall(d))
      && j.ElemEnd(e, tail, d, ip) == end + 1
  {
    hide CompElem, CompList, WfExpr, WfList, ElemCovered, ListCovered, PeakElem, PeakList, At, IsCall;
    CallParts(j, known, e, tail, d, ip);
    var operands := CompList(j.G(), j.t, e, false, d, ip);
    var call := [if tail then DoTailCall(d) else DoCall(d)];
    AtConcat(j.code, ip, operands, call);
    AtFirst(j.code, ip + |operands|, call);
  }

  lemma BeginLayout(j: Job, known: set<Value>, e: Value, d: nat, ip: nat)
    requires j.id < |j.p.clos| && IsStatement(j.G(), e, Begin) && j.ElemAt(known, e, false, d, ip)
    ensures e.cdr.Pair? && e.cdr.cdr == Null && j.ElemAt(known, e.cdr.car, false, d, ip)
    ensures j.ElemEnd(e.cdr.car, false, d, ip) == j.ElemEnd(e, false, d, ip)
  {
    assert WfSequence(j.p, j.G(), j.all, known, e.cdr, false) && e.cdr.cdr == Null;
    assert ListCovered(j.G(), j.t, e);
    assert PeakElem(j.G(), e, d) == PeakList(j.G(), e.cdr, d);
    var only := CompElem(j.G(), j.t, e.cdr.car, false, d, ip);
    assert CompList(j.G(), j.t, Null, false, d + 1, ip + |only|) == [];
    assert CompElem(j.G(), j.t, e, false, d, ip) == only + [];
    assert only + [] == only;
    assert ListCovered(j.G(), j.t, e.cdr);
  }

  lemma TailBeginLayout(j: Job, known: set<Value>, e: Value, d: nat, ip: nat)
    requires j.id < |j.p.clos| && IsStatement(j.G(), e, Begin) && j.ElemAt(known, e, true, d, ip)
    ensures j.SequenceAt(known, e.cdr, d, ip)
    ensures j.ListEnd(e.cdr, true, d, ip) == j.ElemEnd(e, true, d, ip)
  {
    assert ListCovered(j.G(), j.t, e);
  }

  lemma SequenceLayout(j: Job, known: set<Value>, list: Value, d: nat, ip: nat)
    requires j.id < |j.p.clos| && j.SequenceAt(known, list, d, ip)
    ensures list.Pair? && d < j.b
    ensures list.cdr == Null ==>
              j.ElemAt(known, list.car, true, d, ip) && j.ListEnd(list, true, d, ip) == j.ElemEnd(list.car, true, d, ip)
    ensures list.cdr != Null ==>
              && list.cdr.Pair?
              && j.ElemAt(known, list.car, false, d, ip)
              && var mid := j.ElemEnd(list.car, false, d, ip);
              && j.SequenceAt(known, list.cdr, d + 1, mid)
              && j.ListEnd(list, true, d, ip) == j.ListEnd(list.cdr, true, d + 1, mid)
  {
    var first := CompElem(j.G(), j.t, list.car, list.cdr == Null, d, ip);
    var rest := CompList(j.G(), j.t, list.cdr, true, d + 1, ip + |first|);
    assert CompList(j.G(), j.t, list, true, d, ip) == first + rest;
    AtConcat(j.code, ip, first, rest);
    assert list.cdr != Null ==> WfSequence(j.p, j.G(), j.all, known, list.cdr, true);
  }

  // ---------- bodies ----------

  /** The defines ahead will find their names' slots where they push. */
  ghost predicate SlotsAhead(g: Bindings, t: Table, body: Value, d: nat)
    decreases body
  {
    body.Pair? && IsStatement(g, body.car, Define) ==>
      && body.car.cdr.Pair?
      && body.car.cdr.car in t && t[body.car.cdr.car] == Local(d)
      && SlotsAhead(g, t, body.cdr, d + 1)
  }

  ghost predicate BodyAt(j: Job, known: set<Value>, body: Value, d: nat, ip: nat)
    requires j.id < |j.p.clos|
  {
    && WfBody(j.p, j.G(), j.all, known, body) && BodyCovered(j.G(), j.t, body)
    && SlotsAhead(j.G(), j.t, body, d)
    && PeakList(j.G(), body, d) <= j.b
    && At(j.code, ip, CompList(j.G(), j.t, body, true, d, ip))
  }

  lemma BodyLayout(j: Job, known: set<Value>, body: Value, d: nat, ip: nat)
    requires j.id < |j.p.clos| && BodyAt(j, known, body, d, ip)
    requires body.Pair? && IsStatement(j.G(), body.car, Define)
    ensures var init := body.car.cdr.cdr.car;
      var mid := j.ElemEnd(init, false, d, ip);
      && d < j.b && j.ElemAt(known, init, false, d, ip)
      && BodyAt(j, known + {body.car.cdr.car}, body.cdr, d + 1, mid)
      && j.ListEnd(body, true, d, ip) == j.ListEnd(body.cdr, true, d + 1, mid)
  {
    var g := j.G();
    var init := body.car.cdr.cdr.car;
    var first := CompElem(g, j.t, init, false, d, ip);
    var rest := CompList(g, j.t, body.cdr, true, d + 1, ip + |first|);
    assert WfBody(j.p, g, j.all, known + {body.car.cdr.car}, body.cdr);
    assert CompElem(g, j.t, body.car, false, d, ip) == first by {
      assert CompList(g, j.t, body.car.cdr.cdr, false, d, ip) == first + [];
      assert first + [] == first;
    }
    assert CompList(g, j.t, body, true, d, ip) == first + rest;
    AtConcat(j.code, ip, first, rest);
    assert ListCovered(g, j.t, body.car.cdr.cdr);
    PeakOfDefine(g, body, d);
  }

  /** Defines take fresh slots, in order, and leave earlier names alone. */
  lemma {:induction false} DefinesAhead(
    p: Program, g: Bindings, all: set<Value>, known: set<Value>, t: Table, body: Value, d: nat)
    requires WfBody(p, g, all, known, body) && DefinesHaveNames(g, body)
    ensures var t' := AddDefines(g, t, body, d);
      SlotsAhead(g, t', body, d) && forall v | v in known && v in t :: v in t' && t'[v] == t[v]
    decreases body
  {
    if body.Pair? && IsStatement(g, body.car, Define) {
      var name := body.car.cdr.car;
      DefinesAhead(p, g, all, known + {name}, t[name := Local(d)], body.cdr, d + 1);
    }
  }

  lemma {:induction false} SlotsAheadGrows(g: Bindings, s: Scope, s': Scope, body: Value, d: nat)
    requires Grows(s, s') && SlotsAhead(g, s.table, body, d)
    ensures SlotsAhead(g, s'.table, body, d)
    decreases body
  {
    if body.Pair? && IsStatement(g, body.car, Define) {
      SlotsAheadGrows(g, s, s', body.cdr, d + 1);
    }
  }

  // ---------- whole closures ----------

  /** The job of proving a user closure's code. */
  function JobOf(p: Program, b: nat, id: nat): Job
    requires id < |p.clos| && WfClosure(p, id)
  {
    GenTopScopeCorrect(p, id);
    var c, g := p.clos[id], Globals(p, id);
    var t := GenTopScope(g, c.args, c.definition).value.table;
    Job(p, b, id, LocalNames(g, c.args, c.definition), t,
        CompList(g, t, c.definition, true, ListLength(c.args) + 1, 0) + [ReturnLast])
  }

  lemma JobFields(p: Program, b: nat, id: nat)
    requires id < |p.clos| && WfClosure(p, id)
    ensures var j := JobOf(p, b, id); j.p == p && j.b == b && j.id == id
  {
  }

  lemma CodeStarts(p: Program, b: nat, id: nat)
    requires id < |p.clos| && WfClosure(p, id)
    ensures var j, c := JobOf(p, b, id), p.clos[id];
      && At(j.code, 0, CompList(j.G(), j.t, c.definition, true, ListLength(c.args) + 1, 0))
      && ReachesReturn(j.code, j.ListEnd(c.definition, true, ListLength(c.args) + 1, 0))
  {
    hide CompList, WfClosure;
    var j, c := JobOf(p, b, id), p.clos[id];
    var body := CompList(j.G(), j.t, c.definition, true, ListLength(c.args) + 1, 0);
    assert At(j.code, 0, body + [ReturnLast]);
    AtConcat(j.code, 0, body, [ReturnLast]);
    AtFirst(j.code, |body|, [ReturnLast]);
  }

  lemma SlotsStart(p: Program, b: nat, id: nat)
    requires id < |p.clos| && WfClosure(p, id)
    ensures var j, c := JobOf(p, b, id), p.clos[id]; SlotsAhead(j.G(), j.t, c.definition, ListLength(c.args) + 1)
  {
    hide CompList;
    GenTopScopeCorrect(p, id);
    var j, c, g := JobOf(p, b, id), p.clos[id], Globals(p, id);
    var s := GenTopScope(g, c.args, c.definition).value;
    var start := Scope(StackSlots(g, c.args, c.definition), []);
    DefinesAhead(p, g, j.all, ParamSet(c.args), AddParams(map[], c.args, 1), c.definition, ListLength(c.args) + 1);
    SlotsAheadGrows(g, start, s, c.definition, ListLength(c.args) + 1);
  }

  /** A closure's body lies at the start of its code, before the return. */
  lemma BodyStarts(p: Program, b: nat, id: nat)
    requires id < |p.clos| && WfClosure(p, id)
    requires PeakList(Globals(p, id), p.clos[id].definition, ListLength(p.clos[id].args) + 1) <= b
    ensures var j, c := JobOf(p, b, id), p.clos[id]; var n := ListLength(c.args) + 1;
      && BodyAt(j, ParamSet(c.args), c.definition, n, 0)
      && ReachesReturn(j.code, j.ListEnd(c.definition, true, n, 0))
  {
    hide CompList, ReachesReturn, At, SlotsAhead, WfBody, BodyCovered;
    GenTopScopeCorrect(p, id);
    CodeStarts(p, b, id);
    SlotsStart(p, b, id);
  }
}
