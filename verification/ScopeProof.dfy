/** Scope analysis succeeds on the fragment and resolves every variable rightly. */
module ScopeProof {
  import opened Values
  import opened EnvStore
  import opened Compiler
  import opened Machine
  import opened Semantics
  import opened WellFormed

  /** Every symbol that scope analysis visits has an entry. */
  predicate ElemCovered(g: Bindings, t: Table, e: Value)
    decreases e, 1
  {
    if e.Sym? then IsToken(g, e, If) || e in t else ListCovered(g, t, e)
  }

  predicate ListCovered(g: Bindings, t: Table, v: Value)
    decreases v, 0
  {
    v.Pair? ==> ElemCovered(g, t, v.car) && ListCovered(g, t, v.cdr)
  }

  /** The analysis of this tree meets no inner define and no unbound symbol. */
  predicate Resolvable(g: Bindings, all: set<Value>, v: Value) {
    v.Pair? ==>
      && (v.car.Sym? ==> IsToken(g, v.car, If) || (!IsToken(g, v.car, Define) && (v.car in all || v.car in g)))
      && Resolvable(g, all, v.car)
      && Resolvable(g, all, v.cdr)
  }

  /** Locals have stack slots. Every other entry is a closure slot that holds the symbol's node, and
      each closure slot belongs to one symbol. */
  ghost predicate ScopeInv(g: Bindings, all: set<Value>, s: Scope) {
    && (forall v | v in all :: v in s.table)
    && (forall v | v in s.table :: v in all <==> !s.table[v].Captured?)
    && (forall v | v in s.table && s.table[v].Captured? ::
          v in g && s.table[v].location < |s.closed| && s.closed[s.table[v].location] == ClosedVar(v, g[v].node))
    && (forall i, j | 0 <= i < j < |s.closed| :: s.closed[i].sym != s.closed[j].sym)
    && (forall i | 0 <= i < |s.closed| :: s.closed[i].sym in s.table)
  }

  ghost predicate Grows(s: Scope, s': Scope) {
    && (forall v | v in s.table :: v in s'.table && s'.table[v] == s.table[v])
    && |s.closed| <= |s'.closed| && s'.closed[..|s.closed|] == s.closed
  }

  lemma GrowsSame(s: Scope)
    ensures Grows(s, s)
  {
  }

  lemma GrowsTwice(a: Scope, b: Scope, c: Scope)
    requires Grows(a, b) && Grows(b, c)
    ensures Grows(a, c)
  {
    assert c.closed[..|a.closed|] == c.closed[..|b.closed|][..|a.closed|];
  }

  lemma {:induction false} CoveredGrows(g: Bindings, s: Scope, s': Scope, v: Value)
    requires Grows(s, s')
    ensures ElemCovered(g, s.table, v) ==> ElemCovered(g, s'.table, v)
    ensures ListCovered(g, s.table, v) ==> ListCovered(g, s'.table, v)
  {
    if v.Pair? {
      CoveredGrows(g, s, s', v.car);
      CoveredGrows(g, s, s', v.cdr);
      assert ListCovered(g, s.table, v) ==> ListCovered(g, s'.table, v);
    }
  }

  lemma HandleSymbolCorrect(g: Bindings, all: set<Value>, s: Scope, sym: Value)
    requires ScopeInv(g, all, s) && sym.Sym? && (sym in all || sym in g)
    ensures var r := HandleSymbol(g, s, sym);
      r.Some? && ScopeInv(g, all, r.value) && Grows(s, r.value) && sym in r.value.table
  {
    hide ScopeInv;
    if sym !in s.table {
      NotYetClosed(g, all, s, sym);
      ClosedOnce(g, all, s, sym);
    }
  }

  lemma NotYetClosed(g: Bindings, all: set<Value>, s: Scope, sym: Value)
    requires ScopeInv(g, all, s) && sym !in s.table
    ensures FindClosed(s.closed, sym).None? && sym !in all
  {
  }

  /** A new symbol takes the next closure slot. */
  lemma ClosedOnce(g: Bindings, all: set<Value>, s: Scope, sym: Value)
    requires ScopeInv(g, all, s) && sym !in s.table && sym !in all && sym in g
    ensures var r := Scope(s.table[sym := Captured(|s.closed|)], s.closed + [ClosedVar(sym, g[sym].node)]);
      ScopeInv(g, all, r) && Grows(s, r)
  {
    var r := Scope(s.table[sym := Captured(|s.closed|)], s.closed + [ClosedVar(sym, g[sym].node)]);
    forall v | v in r.table && r.table[v].Captured?
      ensures v in g && r.table[v].location < |r.closed| && r.closed[r.table[v].location] == ClosedVar(v, g[v].node)
    {
      if v != sym { assert s.closed[s.table[v].location] == ClosedVar(v, g[v].node); }
    }
    forall i | 0 <= i < |s.closed| ensures s.closed[i].sym != sym {
      assert s.closed[i].sym in s.table;
    }
  }

  lemma {:induction false} GenSubScopeCorrect(g: Bindings, all: set<Value>, s: Scope, v: Value)
    requires ScopeInv(g, all, s) && Resolvable(g, all, v)
    ensures var r := GenSubScope(g, s, v);
      r.Some? && ScopeInv(g, all, r.value) && Grows(s, r.value) && ListCovered(g, r.value.table, v)
    decreases v
  {
    hide ScopeInv, Grows, HandleSymbol;
    GrowsSame(s);
    if v.Pair? {
      var mid := s;
      if v.car.Sym? {
        if !IsToken(g, v.car, If) {
          HandleSymbolCorrect(g, all, s, v.car);
          mid := HandleSymbol(g, s, v.car).value;
        }
      } else {
        GenSubScopeCorrect(g, all, s, v.car);
        mid := GenSubScope(g, s, v.car).value;
      }
      assert ElemCovered(g, mid.table, v.car);
      GenSubScopeCorrect(g, all, mid, v.cdr);
      CoveredGrows(g, mid, GenSubScope(g, s, v).value, v.car);
      GrowsTwice(s, mid, GenSubScope(g, s, v).value);
    }
  }

  /** The leading initialisers and the rest of a body are covered. */
  predicate BodyCovered(g: Bindings, t: Table, body: Value) {
    if body.Pair? && IsStatement(g, body.car, Define) then
      body.car.cdr.Pair? && ListCovered(g, t, body.car.cdr.cdr) && BodyCovered(g, t, body.cdr)
    else ListCovered(g, t, body)
  }

  // ---------- well-formed code is resolvable ----------

  lemma {:induction false} WfExprResolvable(
    p: Program, g: Bindings, all: set<Value>, known: set<Value>, e: Value, tail: bool)
    requires WfExpr(p, g, all, known, e, tail) && known <= all && NoFormNames(g, all)
    ensures Resolvable(g, all, e)
    ensures e.Sym? ==> !IsToken(g, e, If) && !IsToken(g, e, Define) && (e in all || e in g)
    decreases e, 1
  {
    if e.Pair? {
      if IsStatement(g, e, If) {
        WfExprResolvable(p, g, all, known, e.cdr.car, false);
        WfExprResolvable(p, g, all, known, e.cdr.cdr.car, tail);
        WfExprResolvable(p, g, all, known, e.cdr.cdr.cdr.car, tail);
        assert Resolvable(g, all, e.cdr.cdr.cdr);
        assert Resolvable(g, all, e.cdr.cdr);
      } else if IsStatement(g, e, Begin) {
        WfSequenceResolvable(p, g, all, known, e.cdr, tail);
      } else {
        WfListResolvable(p, g, all, known, e);
      }
    }
  }

  lemma {:induction false} WfListResolvable(
    p: Program, g: Bindings, all: set<Value>, known: set<Value>, list: Value)
    requires WfList(p, g, all, known, list) && known <= all && NoFormNames(g, all)
    ensures Resolvable(g, all, list)
    decreases list, 0
  {
    if list.Pair? {
      WfExprResolvable(p, g, all, known, list.car, false);
      WfListResolvable(p, g, all, known, list.cdr);
    }
  }

  lemma {:induction false} WfSequenceResolvable(
    p: Program, g: Bindings, all: set<Value>, known: set<Value>, list: Value, tail: bool)
    requires WfSequence(p, g, all, known, list, tail) && known <= all && NoFormNames(g, all)
    ensures Resolvable(g, all, list)
    decreases list, 0
  {
    WfExprResolvable(p, g, all, known, list.car, tail && list.cdr == Null);
    if list.cdr != Null {
      WfSequenceResolvable(p, g, all, known, list.cdr, tail);
    }
  }

  lemma {:induction false} GenBodyScopeCorrect(
    p: Program, g: Bindings, all: set<Value>, known: set<Value>, s: Scope, body: Value)
    requires ScopeInv(g, all, s) && WfBody(p, g, all, known, body) && known <= all && NoFormNames(g, all)
    ensures DefinesHaveNames(g, body)
    ensures var r := GenBodyScope(g, s, body);
      r.Some? && ScopeInv(g, all, r.value) && Grows(s, r.value) && BodyCovered(g, r.value.table, body)
    decreases body
  {
    hide ScopeInv, Grows;
    if body.Pair? && IsStatement(g, body.car, Define) {
      var init := body.car.cdr.cdr;
      WfExprResolvable(p, g, all, known, init.car, false);
      GenSubScopeCorrect(g, all, s, init);
      var mid := GenSubScope(g, s, init).value;
      GenBodyScopeCorrect(p, g, all, known + {body.car.cdr.car}, mid, body.cdr);
      CoveredGrows(g, mid, GenBodyScope(g, s, body).value, init);
      GrowsTwice(s, mid, GenBodyScope(g, s, body).value);
    } else {
      WfSequenceResolvable(p, g, all, known, body, true);
      GenSubScopeCorrect(g, all, s, body);
    }
  }

  // ---------- parameters and locals ----------

  /** A table of stack locations for exactly these names. */
  ghost predicate StackTable(t: Table, names: set<Value>) {
    t.Keys == names && forall v | v in t :: !t[v].Captured?
  }

  lemma {:induction false} AddParamsCorrect(t: Table, names: set<Value>, args: Value, loc: nat)
    requires StackTable(t, names)
    ensures StackTable(AddParams(t, args, loc), names + ParamSet(args))
    decreases args
  {
    if args.Pair? {
      AddParamsCorrect(t[args.car := Parameter(loc)], names + {args.car}, args.cdr, loc + 1);
      assert names + {args.car} + ParamSet(args.cdr) == names + ParamSet(args);
    } else {
      assert names + ParamSet(args) == names;
    }
  }

  lemma {:induction false} AddDefinesCorrect(g: Bindings, t: Table, names: set<Value>, body: Value, loc: nat)
    requires StackTable(t, names) && DefinesHaveNames(g, body)
    ensures StackTable(AddDefines(g, t, body, loc), names + DefinedNames(g, body))
    decreases body
  {
    if body.Pair? && IsStatement(g, body.car, Define) {
      var name := body.car.cdr.car;
      AddDefinesCorrect(g, t[name := Local(loc)], names + {name}, body.cdr, loc + 1);
      assert names + {name} + DefinedNames(g, body.cdr) == names + DefinedNames(g, body);
    } else {
      assert names + DefinedNames(g, body) == names;
    }
  }

  /** The stack locations given before any initialiser is analysed. */
  function StackSlots(g: Bindings, args: Value, body: Value): Table
    requires DefinesHaveNames(g, body)
  {
    AddDefines(g, AddParams(map[], args, 1), body, ListLength(args) + 1)
  }

  /** Analysis of a well-formed closure succeeds: locals keep their stack slots, every other symbol of
      the body gets one closure slot, and that slot holds the node the environment search finds. */
  lemma GenTopScopeCorrect(p: Program, id: nat)
    requires id < |p.clos| && WfClosure(p, id)
    ensures var c, g := p.clos[id], Globals(p, id);
      && DefinesHaveNames(g, c.definition)
      && var r := GenTopScope(g, c.args, c.definition);
      && r.Some?
      && ScopeInv(g, LocalNames(g, c.args, c.definition), r.value)
      && Grows(Scope(StackSlots(g, c.args, c.definition), []), r.value)
      && BodyCovered(g, r.value.table, c.definition)
  {
    var c, g := p.clos[id], Globals(p, id);
    var all := LocalNames(g, c.args, c.definition);
    var t := AddParams(map[], c.args, 1);
    AddParamsCorrect(map[], {}, c.args, 1);
    assert StackTable(t, ParamSet(c.args)) by {
      assert {} + ParamSet(c.args) == ParamSet(c.args);
    }
    WfBodyHasNames(p, g, all, ParamSet(c.args), c.definition);
    AddDefinesCorrect(g, t, ParamSet(c.args), c.definition, ListLength(c.args) + 1);
    var s := Scope(StackSlots(g, c.args, c.definition), []);
    assert ScopeInv(g, all, s);
    GenBodyScopeCorrect(p, g, all, ParamSet(c.args), s, c.definition);
  }

  lemma {:induction false} WfBodyHasNames(p: Program, g: Bindings, all: set<Value>, known: set<Value>, body: Value)
    requires WfBody(p, g, all, known, body)
    ensures DefinesHaveNames(g, body) && ListHasArms(g, body)
    decreases body, 2
  {
    if body.Pair? && IsStatement(g, body.car, Define) {
      WfExprHasArms(p, g, all, known, body.car.cdr.cdr.car, false);
      assert ListHasArms(g, body.car.cdr.cdr);
      WfBodyHasNames(p, g, all, known + {body.car.cdr.car}, body.cdr);
    } else {
      WfSequenceHasArms(p, g, all, known, body, true);
    }
  }

  lemma {:induction false} WfExprHasArms(
    p: Program, g: Bindings, all: set<Value>, known: set<Value>, e: Value, tail: bool)
    requires WfExpr(p, g, all, known, e, tail)
    ensures ElemHasArms(g, e)
    decreases e, 1
  {
    if e.Pair? {
      if IsStatement(g, e, If) {
        WfExprHasArms(p, g, all, known, e.cdr.car, false);
        WfExprHasArms(p, g, all, known, e.cdr.cdr.car, tail);
        WfExprHasArms(p, g, all, known, e.cdr.cdr.cdr.car, tail);
      } else if IsStatement(g, e, Begin) {
        WfSequenceHasArms(p, g, all, known, e.cdr, tail);
      } else {
        WfListHasArms(p, g, all, known, e);
      }
    }
  }

  lemma {:induction false} WfListHasArms(
    p: Program, g: Bindings, all: set<Value>, known: set<Value>, list: Value)
    requires WfList(p, g, all, known, list)
    ensures ListHasArms(g, list)
    decreases list, 0
  {
    if list.Pair? {
      WfExprHasArms(p, g, all, known, list.car, false);
      WfListHasArms(p, g, all, known, list.cdr);
    }
  }

  lemma {:induction false} WfSequenceHasArms(
    p: Program, g: Bindings, all: set<Value>, known: set<Value>, list: Value, tail: bool)
    requires WfSequence(p, g, all, known, list, tail)
    ensures ListHasArms(g, list)
    decreases list, 0
  {
    WfExprHasArms(p, g, all, known, list.car, tail && list.cdr == Null);
    if list.cdr != Null {
      WfSequenceHasArms(p, g, all, known, list.cdr, tail);
    }
  }
}
