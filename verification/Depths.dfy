/** The static depth is right wherever control can arrive. */
module Depths {
  import opened Values
  import opened EnvStore
  import opened Compiler
  import opened CodeLayout
  import opened Machine
  import opened Semantics
  import opened WellFormed
  import opened FrameDiscipline
  import opened CodeShape
  import opened Peaks
  import opened ScopeProof
  import opened Layout

  // ---------- what the depths say about the code ----------

  /** Control may arrive at index `at` with `d` slots: that is the depth given there, or only jumps separate the
      place from the return, for which the depth does not matter. */
  ghost predicate Meets(code: seq<Instr>, depths: seq<nat>, at: nat, d: nat)
    requires |depths| == |code|
  {
    at < |code| && (depths[at] == d || ReachesReturn(code, at))
  }

  /** From the depth given for instruction `i`, every instruction that can follow is met at the depth given for it;
      at most `b` slots are in use; and a call has its callee above the depth it names. */
  ghost predicate Flows(code: seq<Instr>, depths: seq<nat>, b: nat, i: nat)
    requires |depths| == |code| && i < |code|
  {
    var d := depths[i];
    match code[i]
    case PushConst(_) => d < b && Meets(code, depths, i + 1, d + 1)
    case ClosureRef(_) => d < b && Meets(code, depths, i + 1, d + 1)
    case StackRef(_) => d < b && Meets(code, depths, i + 1, d + 1)
    case JumpIfFalse(target) =>
      0 < d <= b && Meets(code, depths, i + 1, d - 1) && Meets(code, depths, target, d - 1)
    case Jump(target) => i < target && Meets(code, depths, target, d)
    case DoCall(arg) => arg < d <= b && Meets(code, depths, i + 1, arg + 1)
    case DoTailCall(arg) => arg < d <= b
    case ReturnLast => true
    case _ => false
  }

  ghost predicate FlowFrom(code: seq<Instr>, depths: seq<nat>, b: nat, from: nat, to: nat)
    requires |depths| == |code|
  {
    from <= to <= |code| && forall i | from <= i < to :: Flows(code, depths, b, i)
  }

  lemma FlowJoined(code: seq<Instr>, depths: seq<nat>, b: nat, from: nat, mid: nat, to: nat)
    requires |depths| == |code| && FlowFrom(code, depths, b, from, mid) && FlowFrom(code, depths, b, mid, to)
    ensures FlowFrom(code, depths, b, from, to)
  {
  }

  // ---------- one depth an instruction ----------

  lemma {:induction false} ElemDepthsLength(g: Bindings, t: Table, e: Value, tail: bool, d: nat, ip: nat)
    ensures |ElemDepths(g, e, d)| == |CompElem(g, t, e, tail, d, ip)|
    decreases e, 1
  {
    if e.Pair? {
      if IsStatement(g, e, If) {
        IfDepthsLength(g, t, e, tail, d, ip);
      } else if IsStatement(g, e, Define) {
        if e.cdr.Pair? { ListDepthsLength(g, t, e.cdr.cdr, false, d, ip); }
      } else if IsStatement(g, e, Begin) {
        ListDepthsLength(g, t, e.cdr, tail, d, ip);
      } else {
        ListDepthsLength(g, t, e, false, d, ip);
      }
    }
  }

  lemma {:induction false} IfDepthsLength(g: Bindings, t: Table, e: Value, tail: bool, d: nat, ip: nat)
    requires IsStatement(g, e, If)
    ensures |ElemDepths(g, e, d)| == |CompElem(g, t, e, tail, d, ip)|
    decreases e, 0
  {
    hide CompElem, CompList;
    var test, left, right := IfCode(g, t, e, tail, d, ip);
    if e.cdr.Pair? {
      ElemDepthsLength(g, t, e.cdr.car, false, d, ip);
      if e.cdr.cdr.Pair? {
        ElemDepthsLength(g, t, e.cdr.cdr.car, tail, d, ip + |test| + 1);
        if e.cdr.cdr.cdr.Pair? {
          ElemDepthsLength(g, t, e.cdr.cdr.cdr.car, tail, d, ip + |test| + |left| + 2);
        }
      }
    }
  }

  lemma {:induction false} ListDepthsLength(g: Bindings, t: Table, list: Value, tail: bool, d: nat, ip: nat)
    ensures |ListDepths(g, list, d)| == |CompList(g, t, list, tail, d, ip)|
    decreases list, 0
  {
    if list.Pair? {
      var last := tail && list.cdr == Null;
      ElemDepthsLength(g, t, list.car, last, d, ip);
      ListDepthsLength(g, t, list.cdr, tail, d + 1, ip + |CompElem(g, t, list.car, last, d, ip)|);
    }
  }

  // ---------- well-formed code ----------

  /** A closure's code with the depths recorded for it. */
  datatype Text = Text(j: Job, depths: seq<nat>) {
    ghost predicate Valid() { j.id < |j.p.clos| && |depths| == |j.code| }

    ghost predicate Elem(known: set<Value>, e: Value, tail: bool, d: nat, ip: nat) {
      Valid() && j.ElemAt(known, e, tail, d, ip) && At(depths, ip, ElemDepths(j.G(), e, d))
    }

    ghost predicate List(known: set<Value>, list: Value, d: nat, ip: nat) {
      Valid() && j.ListAt(known, list, d, ip) && At(depths, ip, ListDepths(j.G(), list, d))
    }

    ghost predicate Sequence(known: set<Value>, list: Value, d: nat, ip: nat) {
      Valid() && j.SequenceAt(known, list, d, ip) && At(depths, ip, ListDepths(j.G(), list, d))
    }

    ghost predicate Body(known: set<Value>, body: Value, d: nat, ip: nat) {
      Valid() && BodyAt(j, known, body, d, ip) && At(depths, ip, ListDepths(j.G(), body, d))
    }

    /** Control goes on behind an element: to its successor with one slot more, or from tail position to the return. */
    ghost predicate GoesOn(tail: bool, end: nat, d: nat)
      requires Valid()
    {
      if tail then ReachesReturn(j.code, end) else Meets(j.code, depths, end, d + 1)
    }

    ghost predicate Good(from: nat, to: nat, d: nat)
      requires Valid()
    {
      Meets(j.code, depths, from, d) && FlowFrom(j.code, depths, j.b, from, to)
    }
  }

  lemma AtomFlows(x: Text, known: set<Value>, e: Value, tail: bool, d: nat, ip: nat)
    requires x.Elem(known, e, tail, d, ip) && !e.Pair? && x.GoesOn(tail, x.j.ElemEnd(e, tail, d, ip), d)
    ensures x.Good(ip, x.j.ElemEnd(e, tail, d, ip), d)
  {
    AtFirst(x.j.code, ip, CompElem(x.j.G(), x.j.t, e, tail, d, ip));
    AtFirst(x.depths, ip, ElemDepths(x.j.G(), e, d));
  }

  // ---------- the depths of the parts, laid out like their code ----------

  lemma {:induction false} PeakAbove(
    p: Program, g: Bindings, all: set<Value>, known: set<Value>, e: Value, tail: bool, d: nat)
    requires WfExpr(p, g, all, known, e, tail)
    ensures d < PeakElem(g, e, d)
    decreases e
  {
    if e.Pair? && IsStatement(g, e, If) { PeakAbove(p, g, all, known, e.cdr.car, false, d); }
  }

  lemma IfDepths(g: Bindings, e: Value, d: nat)
    requires IsStatement(g, e, If) && IfShape(e)
    ensures ElemDepths(g, e, d) ==
      (((ElemDepths(g, e.cdr.car, d) + [d + 1]) + ElemDepths(g, e.cdr.cdr.car, d)) + [d + 1])
      + ElemDepths(g, e.cdr.cdr.cdr.car, d)
  {
    hide ListDepths;
  }

  /** The parts of an `if`, and the depth at its two jumps. */
  lemma IfLaid(x: Text, known: set<Value>, e: Value, tail: bool, d: nat, ip: nat)
    requires x.Elem(known, e, tail, d, ip) && IsStatement(x.j.G(), e, If)
    ensures IfShape(e) && IfLaidOut(x.j, known, e, tail, d, ip) && d < x.j.b
    ensures var test, second := IfTestEnd(x.j, e, d, ip), IfSecond(x.j, e, tail, d, ip);
      && x.Elem(known, e.cdr.car, false, d, ip)
      && x.Elem(known, e.cdr.cdr.car, tail, d, test + 1)
      && x.Elem(known, e.cdr.cdr.cdr.car, tail, d, second)
      && x.depths[test] == d + 1 && x.depths[second - 1] == d + 1
  {
    hide CompElem, ElemDepths, WfExpr, PeakElem, ElemCovered, IsStatement, At;
    var j, g := x.j, x.j.G();
    IfLayout(j, known, e, tail, d, ip);
    IfDepths(g, e, d);
    PeakAbove(j.p, g, j.all, known, e.cdr.car, false, d);
    ElemDepthsLength(g, j.t, e.cdr.car, false, d, ip);
    ElemDepthsLength(g, j.t, e.cdr.cdr.car, tail, d, IfTestEnd(j, e, d, ip) + 1);
    PiecesAt<nat>(x.depths, ip, ElemDepths(g, e.cdr.car, d), d + 1, ElemDepths(g, e.cdr.cdr.car, d), d + 1,
                  ElemDepths(g, e.cdr.cdr.cdr.car, d));
  }

  lemma ListLaid(x: Text, known: set<Value>, list: Value, d: nat, ip: nat)
    requires list.Pair? && x.List(known, list, d, ip)
    ensures x.Elem(known, list.car, false, d, ip)
    ensures x.List(known, list.cdr, d + 1, x.j.ElemEnd(list.car, false, d, ip))
    ensures x.j.ListEnd(list, false, d, ip) == x.j.ListEnd(list.cdr, false, d + 1, x.j.ElemEnd(list.car, false, d, ip))
  {
    hide CompElem, CompList, ElemDepths, WfExpr, WfList, ElemCovered, ListCovered, PeakElem, PeakList, At;
    ListLayout(x.j, known, list, d, ip);
    ElemDepthsLength(x.j.G(), x.j.t, list.car, false, d, ip);
    AtConcat(x.depths, ip, ElemDepths(x.j.G(), list.car, d), ListDepths(x.j.G(), list.cdr, d + 1));
  }

  /** The call instruction behind the operands: its depth is the depth it names and its operands. */
  lemma CallLaid(x: Text, known: set<Value>, e: Value, tail: bool, d: nat, ip: nat)
    requires x.Elem(known, e, tail, d, ip) && IsCall(x.j.G(), e)
    ensures x.List(known, e, d, ip) && d + ListLength(e) <= x.j.b && ListLength(e) > 0
    ensures var end := x.j.ListEnd(e, false, d, ip);
      && end < |x.j.code| && x.j.code[end] == (if tail then DoTailCall(d) else DoCall(d))
      && x.depths[end] == d + ListLength(e) && x.j.ElemEnd(e, tail, d, ip) == end + 1
  {
    hide CompElem, CompList, ListDepths, WfExpr, WfList, ElemCovered, ListCovered, PeakElem, PeakList, At;
    CallLayout(x.j, known, e, tail, d, ip);
    var g, operands := x.j.G(), ListDepths(x.j.G(), e, d);
    ListDepthsLength(g, x.j.t, e, false, d, ip);
    AtConcat<nat>(x.depths, ip, operands, [d + ListLength(e)]);
    AtFirst<nat>(x.depths, ip + |operands|, [d + ListLength(e)]);
    assert PeakList(g, e, d) >= d + ListLength(e);
  }

  /** A `begin` outside tail position is its only expression. */
  lemma BeginLaid(x: Text, known: set<Value>, e: Value, d: nat, ip: nat)
    requires x.Elem(known, e, false, d, ip) && IsStatement(x.j.G(), e, Begin)
    ensures e.cdr.Pair? && x.Elem(known, e.cdr.car, false, d, ip)
    ensures x.j.ElemEnd(e.cdr.car, false, d, ip) == x.j.ElemEnd(e, false, d, ip)
  {
    BeginLayout(x.j, known, e, d, ip);
    OneDepth(x.j.G(), e.cdr, d);
  }

  lemma OneDepth(g: Bindings, list: Value, d: nat)
    requires list.Pair? && list.cdr == Null
    ensures ListDepths(g, list, d) == ElemDepths(g, list.car, d)
  {
    assert ListDepths(g, Null, d + 1) == [];
    assert ElemDepths(g, list.car, d) + [] == ElemDepths(g, list.car, d);
  }

  lemma SequenceLaid(x: Text, known: set<Value>, list: Value, d: nat, ip: nat)
    requires x.Sequence(known, list, d, ip)
    ensures list.Pair? && x.Elem(known, list.car, list.cdr == Null, d, ip)
    ensures var mid := x.j.ElemEnd(list.car, list.cdr == Null, d, ip);
      if list.cdr == Null then x.j.ListEnd(list, true, d, ip) == mid
      else
        && x.Sequence(known, list.cdr, d + 1, mid)
        && x.j.ListEnd(list, true, d, ip) == x.j.ListEnd(list.cdr, true, d + 1, mid)
  {
    hide CompElem, CompList, ElemDepths, WfExpr, WfSequence, ElemCovered, ListCovered, PeakElem, PeakList, At;
    SequenceLayout(x.j, known, list, d, ip);
    ElemDepthsLength(x.j.G(), x.j.t, list.car, list.cdr == Null, d, ip);
    AtConcat(x.depths, ip, ElemDepths(x.j.G(), list.car, d), ListDepths(x.j.G(), list.cdr, d + 1));
  }

  lemma DefineLaid(x: Text, known: set<Value>, body: Value, d: nat, ip: nat)
    requires x.Body(known, body, d, ip) && body.Pair? && IsStatement(x.j.G(), body.car, Define)
    ensures DefineShape(body.car)
    ensures var init := body.car.cdr.cdr.car; var mid := x.j.ElemEnd(init, false, d, ip);
      && x.Elem(known, init, false, d, ip)
      && x.Body(known + {body.car.cdr.car}, body.cdr, d + 1, mid)
      && x.j.ListEnd(body, true, d, ip) == x.j.ListEnd(body.cdr, true, d + 1, mid)
  {
    hide CompElem, CompList, WfExpr, ElemCovered, ListCovered, PeakElem, PeakList, At;
    BodyLayout(x.j, known, body, d, ip);
    var g, init := x.j.G(), body.car.cdr.cdr.car;
    OneDepth(g, body.car.cdr.cdr, d);
    assert ElemDepths(g, body.car, d) == ElemDepths(g, init, d);
    hide ElemDepths;
    ElemDepthsLength(g, x.j.t, init, false, d, ip);
    AtConcat(x.depths, ip, ElemDepths(g, init, d), ListDepths(g, body.cdr, d + 1));
  }

  // ---------- every edge ----------

  lemma {:induction false} ListFlows(x: Text, known: set<Value>, list: Value, d: nat, ip: nat)
    requires x.List(known, list, d, ip)
    requires Meets(x.j.code, x.depths, x.j.ListEnd(list, false, d, ip), d + ListLength(list))
    ensures x.Good(ip, x.j.ListEnd(list, false, d, ip), d)
    decreases list, 0
  {
    hide CompElem, ElemDepths, WfExpr, PeakElem, ElemCovered, Flows;
    if list.Pair? {
      ListLaid(x, known, list, d, ip);
      hide CompList, ListDepths, PeakList, WfList, ListCovered;
      var mid := x.j.ElemEnd(list.car, false, d, ip);
      ListFlows(x, known, list.cdr, d + 1, mid);
      ElemFlows(x, known, list.car, false, d, ip);
      FlowJoined(x.j.code, x.depths, x.j.b, ip, mid, x.j.ListEnd(list, false, d, ip));
    }
  }

  lemma {:induction false} CallFlows(x: Text, known: set<Value>, e: Value, tail: bool, d: nat, ip: nat)
    requires x.Elem(known, e, tail, d, ip) && IsCall(x.j.G(), e)
    requires x.GoesOn(tail, x.j.ElemEnd(e, tail, d, ip), d)
    ensures x.Good(ip, x.j.ElemEnd(e, tail, d, ip), d)
    decreases e, 1
  {
    hide CompElem, CompList, ElemDepths, ListDepths, WfExpr, WfList, ElemCovered, ListCovered, PeakElem, PeakList, At;
    CallLaid(x, known, e, tail, d, ip);
    var end := x.j.ListEnd(e, false, d, ip);
    ListFlows(x, known, e, d, ip);
    FlowJoined(x.j.code, x.depths, x.j.b, ip, end, end + 1);
  }

  lemma {:induction false} IfFlows(x: Text, known: set<Value>, e: Value, tail: bool, d: nat, ip: nat)
    requires x.Elem(known, e, tail, d, ip) && IsStatement(x.j.G(), e, If)
    requires x.GoesOn(tail, x.j.ElemEnd(e, tail, d, ip), d)
    ensures x.Good(ip, x.j.ElemEnd(e, tail, d, ip), d)
    decreases e, 1
  {
    hide CompElem, CompList, ElemDepths, ListDepths, WfExpr, WfList, ElemCovered, ListCovered, PeakElem, PeakList, At;
    IfLaid(x, known, e, tail, d, ip);
    hide Job.ElemEnd;
    var test, second, end := IfTestEnd(x.j, e, d, ip), IfSecond(x.j, e, tail, d, ip), x.j.ElemEnd(e, tail, d, ip);
    ElemFlows(x, known, e.cdr.cdr.cdr.car, tail, d, second);
    ElemFlows(x, known, e.cdr.cdr.car, tail, d, test + 1);
    ElemFlows(x, known, e.cdr.car, false, d, ip);
    FlowJoined(x.j.code, x.depths, x.j.b, ip, test, test + 1);
    FlowJoined(x.j.code, x.depths, x.j.b, ip, test + 1, second - 1);
    FlowJoined(x.j.code, x.depths, x.j.b, ip, second - 1, second);
    FlowJoined(x.j.code, x.depths, x.j.b, ip, second, end);
  }

  lemma {:induction false} SequenceFlows(x: Text, known: set<Value>, list: Value, d: nat, ip: nat)
    requires x.Sequence(known, list, d, ip) && ReachesReturn(x.j.code, x.j.ListEnd(list, true, d, ip))
    ensures x.Good(ip, x.j.ListEnd(list, true, d, ip), d)
    decreases list, 0
  {
    hide CompElem, CompList, ElemDepths, ListDepths, WfExpr, PeakElem, PeakList, ElemCovered, ListCovered, At, Flows,
      Meets, ReachesReturn, WfSequence, Job.ElemEnd, Job.ListEnd;
    SequenceLaid(x, known, list, d, ip);
    var last := list.cdr == Null;
    var mid := x.j.ElemEnd(list.car, last, d, ip);
    if !last {
      SequenceFlows(x, known, list.cdr, d + 1, mid);
    }
    ElemFlows(x, known, list.car, last, d, ip);
    if !last {
      FlowJoined(x.j.code, x.depths, x.j.b, ip, mid, x.j.ListEnd(list, true, d, ip));
    }
  }

  /** The code of a well-formed expression flows, from its depth to one more. */
  lemma {:induction false} ElemFlows(x: Text, known: set<Value>, e: Value, tail: bool, d: nat, ip: nat)
    requires x.Elem(known, e, tail, d, ip) && x.GoesOn(tail, x.j.ElemEnd(e, tail, d, ip), d)
    ensures x.Good(ip, x.j.ElemEnd(e, tail, d, ip), d)
    decreases e, 2
  {
    hide CompElem, CompList, ListDepths, PeakElem, PeakList, ElemCovered, At, Flows, Meets, ReachesReturn,
      Job.ElemEnd, Job.ListEnd, FlowFrom;
    if !e.Pair? {
      AtomFlows(x, known, e, tail, d, ip);
    } else if IsStatement(x.j.G(), e, If) {
      IfFlows(x, known, e, tail, d, ip);
    } else if IsStatement(x.j.G(), e, Begin) {
      if tail {
        TailBeginLayout(x.j, known, e, d, ip);
        SequenceFlows(x, known, e.cdr, d, ip);
      } else {
        BeginLaid(x, known, e, d, ip);
        ElemFlows(x, known, e.cdr.car, false, d, ip);
      }
    } else {
      CallFlows(x, known, e, tail, d, ip);
    }
  }

  lemma {:induction false} BodyFlows(x: Text, known: set<Value>, body: Value, d: nat, ip: nat)
    requires x.Body(known, body, d, ip) && ReachesReturn(x.j.code, x.j.ListEnd(body, true, d, ip))
    ensures x.Good(ip, x.j.ListEnd(body, true, d, ip), d)
    decreases body
  {
    hide CompElem, CompList, ElemDepths, ListDepths, WfExpr, PeakElem, PeakList, ElemCovered, At, Flows, Meets,
      ReachesReturn, WfSequence, Job.ElemEnd, Job.ListEnd;
    if body.Pair? && IsStatement(x.j.G(), body.car, Define) {
      DefineLaid(x, known, body, d, ip);
      var mid := x.j.ElemEnd(body.car.cdr.cdr.car, false, d, ip);
      BodyFlows(x, known + {body.car.cdr.car}, body.cdr, d + 1, mid);
      ElemFlows(x, known, body.car.cdr.cdr.car, false, d, ip);
      FlowJoined(x.j.code, x.depths, x.j.b, ip, mid, x.j.ListEnd(body, true, d, ip));
    } else {
      SequenceFlows(x, known, body, d, ip);
    }
  }

  // ---------- whole closures ----------

  /** Entered with `n` slots, at most `b`, code keeps to its depths, whatever path it takes. */
  ghost predicate Consistent(code: seq<Instr>, depths: seq<nat>, n: nat, b: nat) {
    && |depths| == |code| && n <= b
    && Meets(code, depths, 0, n) && FlowFrom(code, depths, b, 0, |code|)
  }

  lemma JobCode(p: Program, b: nat, id: nat, code: seq<Instr>, closed: seq<NodeRef>)
    requires id < |p.clos| && WfClosure(p, id)
    requires var c := p.clos[id]; CompileClosure(Globals(p, id), c.args, c.definition) == Code(code, closed)
    ensures var j, c := JobOf(p, b, id), p.clos[id];
      && j.p == p && j.b == b && j.id == id && j.code == code
      && code == CompList(j.G(), j.t, c.definition, true, ListLength(c.args) + 1, 0) + [ReturnLast]
  {
    hide CompList, WfBody, GenTopScope;
  }

  /** The code of every well-formed closure keeps to the compiler's own `stack_ptr`, on every path to every
      instruction that uses it. */
  lemma ClosureConsistent(p: Program, id: nat, b: nat, code: seq<Instr>, closed: seq<NodeRef>)
    requires id < |p.clos| && WfClosure(p, id)
    requires var c := p.clos[id]; CompileClosure(Globals(p, id), c.args, c.definition) == Code(code, closed)
    requires PeakList(Globals(p, id), p.clos[id].definition, ListLength(p.clos[id].args) + 1) <= b
    ensures var c := p.clos[id];
      Consistent(code, StaticDepths(Globals(p, id), c.args, c.definition), ListLength(c.args) + 1, b)
  {
    hide CompList, ListDepths, WfClosure, PeakList, Flows, CompileClosure, JobOf, BodyAt;
    var c, g, j := p.clos[id], Globals(p, id), JobOf(p, b, id);
    var n := ListLength(c.args) + 1;
    JobCode(p, b, id, code, closed);
    BodyStarts(p, b, id);
    var own, depths := CompList(g, j.t, c.definition, true, n, 0), ListDepths(g, c.definition, n);
    var x := Text(j, StaticDepths(g, c.args, c.definition));
    ListDepthsLength(g, j.t, c.definition, true, n, 0);
    WholeAt(code, own, ReturnLast);
    WholeAt(x.depths, depths, n + ListLength(c.definition));
    BodyFlows(x, ParamSet(c.args), c.definition, n, 0);
    LastFlows(code, x.depths, b, |own|);
    FlowJoined(code, x.depths, b, 0, |own|, |code|);
  }

  lemma LastFlows(code: seq<Instr>, depths: seq<nat>, b: nat, i: nat)
    requires |depths| == |code| && i < |code| && code[i] == ReturnLast
    ensures Flows(code, depths, b, i)
  {
  }

  lemma WholeAt<T>(whole: seq<T>, part: seq<T>, last: T)
    requires whole == part + [last]
    ensures At(whole, 0, part) && whole[|part|] == last && |whole| == |part| + 1
  {
  }

  // ---------- depths and operands of calls ----------

  /** At a call the depth is the depth it names and its operands. */
  predicate CountsOperands(instr: Instr, depth: nat, operands: nat) {
    match instr
    case DoCall(arg) => depth == arg + operands
    case DoTailCall(arg) => depth == arg + operands
    case _ => true
  }

  ghost predicate AllCount(code: seq<Instr>, depths: seq<nat>, operands: seq<nat>) {
    && |code| == |depths| == |operands|
    && forall i | 0 <= i < |code| :: CountsOperands(code[i], depths[i], operands[i])
  }

  lemma CountJoined(
    c1: seq<Instr>, d1: seq<nat>, o1: seq<nat>, c2: seq<Instr>, d2: seq<nat>, o2: seq<nat>)
    requires AllCount(c1, d1, o1) && AllCount(c2, d2, o2)
    ensures AllCount(c1 + c2, d1 + d2, o1 + o2)
  {
  }

  lemma {:induction false} ElemCounts(g: Bindings, t: Table, e: Value, tail: bool, d: nat, ip: nat)
    ensures AllCount(CompElem(g, t, e, tail, d, ip), ElemDepths(g, e, d), ElemOperands(g, e))
    decreases e, 1
  {
    hide AllCount;
    if !e.Pair? {
      OneCounts(CompAtom(g, t, e), d, 0);
    } else if IsStatement(g, e, If) {
      IfCounts(g, t, e, tail, d, ip);
    } else if IsStatement(g, e, Define) {
      if e.cdr.Pair? { ListCounts(g, t, e.cdr.cdr, false, d, ip); } else { NoneCount(); }
    } else if IsStatement(g, e, Begin) {
      ListCounts(g, t, e.cdr, tail, d, ip);
    } else {
      ListCounts(g, t, e, false, d, ip);
      var call := if tail then DoTailCall(d) else DoCall(d);
      OneCounts(call, d + ListLength(e), ListLength(e));
      CountJoined(CompList(g, t, e, false, d, ip), ListDepths(g, e, d), ListOperands(g, e),
                  [call], [d + ListLength(e)], [ListLength(e)]);
    }
  }

  lemma OneCounts(instr: Instr, depth: nat, operands: nat)
    requires CountsOperands(instr, depth, operands)
    ensures AllCount([instr], [depth], [operands])
  {
  }

  lemma NoneCount()
    ensures AllCount([], [], [])
  {
  }

  lemma {:induction false} IfCounts(g: Bindings, t: Table, e: Value, tail: bool, d: nat, ip: nat)
    requires IsStatement(g, e, If)
    ensures AllCount(CompElem(g, t, e, tail, d, ip), ElemDepths(g, e, d), ElemOperands(g, e))
    decreases e, 0
  {
    hide AllCount, CompElem, CompList, ListDepths, ListOperands;
    var c1, c2, c3 := IfCode(g, t, e, tail, d, ip);
    var d1: seq<nat>, d2: seq<nat>, d3: seq<nat>, o1: seq<nat>, o2: seq<nat>, o3: seq<nat> := [], [], [], [], [], [];
    NoneCount();
    if e.cdr.Pair? {
      ElemCounts(g, t, e.cdr.car, false, d, ip);
      d1, o1 := ElemDepths(g, e.cdr.car, d), ElemOperands(g, e.cdr.car);
      if e.cdr.cdr.Pair? {
        ElemCounts(g, t, e.cdr.cdr.car, tail, d, ip + |c1| + 1);
        d2, o2 := ElemDepths(g, e.cdr.cdr.car, d), ElemOperands(g, e.cdr.cdr.car);
        if e.cdr.cdr.cdr.Pair? {
          ElemCounts(g, t, e.cdr.cdr.cdr.car, tail, d, ip + |c1| + |c2| + 2);
          d3, o3 := ElemDepths(g, e.cdr.cdr.cdr.car, d), ElemOperands(g, e.cdr.cdr.cdr.car);
        }
      }
    }
    var second := ip + |c1| + |c2| + 2;
    var jump, skip := JumpIfFalse(second), Jump(second + |c3|);
    OneCounts(jump, d + 1, 0);
    OneCounts(skip, d + 1, 0);
    CountJoined(c1, d1, o1, [jump], [d + 1], [0]);
    CountJoined(c1 + [jump], d1 + [d + 1], o1 + [0], c2, d2, o2);
    CountJoined(c1 + [jump] + c2, d1 + [d + 1] + d2, o1 + [0] + o2, [skip], [d + 1], [0]);
    CountJoined(c1 + [jump] + c2 + [skip], d1 + [d + 1] + d2 + [d + 1], o1 + [0] + o2 + [0], c3, d3, o3);
  }

  lemma {:induction false} ListCounts(g: Bindings, t: Table, list: Value, tail: bool, d: nat, ip: nat)
    ensures AllCount(CompList(g, t, list, tail, d, ip), ListDepths(g, list, d), ListOperands(g, list))
    decreases list, 0
  {
    hide AllCount;
    if list.Pair? {
      var last := tail && list.cdr == Null;
      var first := CompElem(g, t, list.car, last, d, ip);
      ElemCounts(g, t, list.car, last, d, ip);
      ListCounts(g, t, list.cdr, tail, d + 1, ip + |first|);
      CountJoined(first, ElemDepths(g, list.car, d), ElemOperands(g, list.car),
                  CompList(g, t, list.cdr, tail, d + 1, ip + |first|), ListDepths(g, list.cdr, d + 1),
                  ListOperands(g, list.cdr));
    } else {
      NoneCount();
    }
  }
}
