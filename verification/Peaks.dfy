/** The largest number of slots an expression needs, by the compiler's own depth count. */
module Peaks {
  import opened Values
  import opened EnvStore
  import opened Compiler
  import opened Machine
  import opened Semantics
  import opened WellFormed

  function Max(a: nat, b: nat): nat { if a < b then b else a }

  /** The highest static depth reached in code for `e` placed at depth `d`. */
  function PeakElem(g: Bindings, e: Value, d: nat): (peak: nat)
    ensures e.Pair? || peak == d + 1
    decreases e, 1
  {
    if !e.Pair? then d + 1
    else if IsStatement(g, e, If) then
      if !IfShape(e) then d
      else
        Max(PeakElem(g, e.cdr.car, d), Max(PeakElem(g, e.cdr.cdr.car, d), PeakElem(g, e.cdr.cdr.cdr.car, d)))
    else if IsStatement(g, e, Begin) then PeakList(g, e.cdr, d)
    else if IsStatement(g, e, Define) then
      if e.cdr.Pair? then PeakList(g, e.cdr.cdr, d) else d
    else PeakList(g, e, d)
  }

  function PeakList(g: Bindings, list: Value, d: nat): (peak: nat)
    ensures peak >= d + ListLength(list)
    decreases list, 0
  {
    if list.Pair? then Max(PeakElem(g, list.car, d), PeakList(g, list.cdr, d + 1)) else d
  }

  /** `b` slots suffice for every activation of every closure, compiled or not. */
  ghost predicate Bounded(p: Program, b: nat) {
    && b >= 4
    && forall id | 0 <= id < |p.clos| && !p.clos[id].compiled ::
         PeakList(Globals(p, id), p.clos[id].definition, ListLength(p.clos[id].args) + 1) <= b
  }

  lemma PeakOfDefine(g: Bindings, body: Value, d: nat)
    requires body.Pair? && IsStatement(g, body.car, Define) && DefineShape(body.car)
    ensures PeakElem(g, body.car.cdr.cdr.car, d) <= PeakList(g, body, d)
    ensures PeakList(g, body.cdr, d + 1) <= PeakList(g, body, d)
  {
    assert PeakElem(g, body.car, d) == PeakList(g, body.car.cdr.cdr, d);
  }

  lemma BoundedBody(p: Program, b: nat, id: nat)
    requires Bounded(p, b) && id < |p.clos| && !p.clos[id].compiled
    ensures PeakList(Globals(p, id), p.clos[id].definition, ListLength(p.clos[id].args) + 1) <= b
  {
  }
}
