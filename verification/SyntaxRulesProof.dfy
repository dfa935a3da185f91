/** Matching, binding and expansion undo each other. */
module SyntaxRulesProof {
  import opened Values
  import opened SyntaxRules

  /** The names a pattern binds, in order; an ellipsis ends its list. */
  function Names(keywords: Value, pattern: Value): seq<Value>
    decreases pattern
  {
    if !pattern.Pair? then []
    else if AtEllipsis(pattern) then [pattern.car]
    else
      (if pattern.car.Sym? then
         if InKeywords(keywords, pattern.car) then [] else [pattern.car]
       else if pattern.car.Pair? then Names(keywords, pattern.car)
       else [])
      + Names(keywords, pattern.cdr)
  }

  ghost predicate Distinct(names: seq<Value>) {
    forall i, j | 0 <= i < j < |names| :: names[i] != names[j]
  }

  /** Ellipses follow symbols. */
  predicate EllipsesFollowSymbols(pattern: Value) {
    pattern.Pair? ==>
      if AtEllipsis(pattern) then pattern.car.Sym?
      else EllipsesFollowSymbols(pattern.car) && EllipsesFollowSymbols(pattern.cdr)
  }

  /** Variables are distinct, none is a keyword, and each ellipsis follows one. */
  ghost predicate WfPattern(keywords: Value, pattern: Value) {
    && Distinct(Names(keywords, pattern))
    && (forall i | 0 <= i < |Names(keywords, pattern)| :: !InKeywords(keywords, Names(keywords, pattern)[i]))
    && EllipsesFollowSymbols(pattern)
  }

  /** What each name is bound to when the pattern accepts the expression, in the order of `Names`. */
  function BindingsOf(keywords: Value, pattern: Value, expr: Value): seq<MacroBinding>
    decreases pattern
  {
    if !pattern.Pair? then []
    else if AtEllipsis(pattern) then [MacroBinding(pattern.car, if expr.Pair? then expr else Null, true)]
    else if !expr.Pair? then []
    else
      (if pattern.car.Sym? then
         if InKeywords(keywords, pattern.car) then [] else [MacroBinding(pattern.car, expr.car, false)]
       else if pattern.car.Pair? then BindingsOf(keywords, pattern.car, expr.car)
       else [])
      + BindingsOf(keywords, pattern.cdr, expr.cdr)
  }

  lemma ReversedOne<T>(x: T)
    ensures Reversed([x]) == [x] && Reversed<T>([]) == []
  {
  }

  lemma ReversedOnto<T>(a: seq<T>, b: seq<T>, rest: seq<T>)
    ensures Reversed(a + b) + rest == Reversed(b) + (Reversed(a) + rest)
  {
  }

  /** The bindings of the first element alone. */
  function FirstBindings(keywords: Value, pattern: Value, expr: Value): seq<MacroBinding>
    requires pattern.Pair? && expr.Pair?
  {
    if pattern.car.Sym? then
      if InKeywords(keywords, pattern.car) then [] else [MacroBinding(pattern.car, expr.car, false)]
    else if pattern.car.Pair? then BindingsOf(keywords, pattern.car, expr.car)
    else []
  }

  lemma BindingsParts(keywords: Value, pattern: Value, expr: Value)
    requires pattern.Pair? && !AtEllipsis(pattern) && expr.Pair?
    ensures BindingsOf(keywords, pattern, expr) ==
            FirstBindings(keywords, pattern, expr) + BindingsOf(keywords, pattern.cdr, expr.cdr)
  {
  }

  lemma BindingsUnfold(keywords: Value, pattern: Value, expr: Value, bs: seq<MacroBinding>)
    requires pattern.Pair? && !AtEllipsis(pattern) && expr.Pair?
    requires pattern.car.Pair? ==>
      BuildBindings(keywords, pattern.car, expr.car, bs) == Reversed(BindingsOf(keywords, pattern.car, expr.car)) + bs
    ensures var first := FirstBindings(keywords, pattern, expr);
      && BindingsOf(keywords, pattern, expr) == first + BindingsOf(keywords, pattern.cdr, expr.cdr)
      && BuildBindings(keywords, pattern, expr, bs) ==
         BuildBindings(keywords, pattern.cdr, expr.cdr, Reversed(first) + bs)
  {
    hide Reversed;
    ReversedOne(MacroBinding(pattern.car, expr.car, false));
    assert [] + bs == bs;
  }

  lemma BuildStops(keywords: Value, pattern: Value, expr: Value, bs: seq<MacroBinding>)
    requires !(pattern.Pair? && !AtEllipsis(pattern) && expr.Pair?)
    ensures BuildBindings(keywords, pattern, expr, bs) == Reversed(BindingsOf(keywords, pattern, expr)) + bs
  {
    hide Reversed;
    var of := BindingsOf(keywords, pattern, expr);
    assert [] + bs == bs;
    if of == [] {
      ReversedOne(MacroBinding(pattern, expr, true));
    } else {
      ReversedOne(of[0]);
    }
  }

  lemma {:induction false} BuildIsBindingsOf(keywords: Value, pattern: Value, expr: Value, bs: seq<MacroBinding>)
    ensures BuildBindings(keywords, pattern, expr, bs) == Reversed(BindingsOf(keywords, pattern, expr)) + bs
    decreases pattern
  {
    hide Reversed;
    if pattern.Pair? && !AtEllipsis(pattern) && expr.Pair? {
      if pattern.car.Pair? { BuildIsBindingsOf(keywords, pattern.car, expr.car, bs); }
      BindingsUnfold(keywords, pattern, expr, bs);
      hide BuildBindings, BindingsOf, FirstBindings;
      var first := FirstBindings(keywords, pattern, expr);
      BuildIsBindingsOf(keywords, pattern.cdr, expr.cdr, Reversed(first) + bs);
      ReversedOnto(first, BindingsOf(keywords, pattern.cdr, expr.cdr), bs);
    } else {
      BuildStops(keywords, pattern, expr, bs);
    }
  }

  lemma {:induction false} NamesOfBindings(keywords: Value, pattern: Value, expr: Value)
    requires Matches(keywords, pattern, expr)
    ensures var bs, names := BindingsOf(keywords, pattern, expr), Names(keywords, pattern);
      |bs| == |names| && forall i | 0 <= i < |bs| :: bs[i].name == names[i]
    decreases pattern
  {
    if pattern.Pair? && !AtEllipsis(pattern) {
      if pattern.car.Pair? { NamesOfBindings(keywords, pattern.car, expr.car); }
      NamesOfBindings(keywords, pattern.cdr, expr.cdr);
    }
  }

  lemma {:induction false} FindDistinct(bs: seq<MacroBinding>, k: nat)
    requires k < |bs| && forall i, j | 0 <= i < j < |bs| :: bs[i].name != bs[j].name
    ensures FindBinding(bs, bs[k].name) == Some(bs[k])
    decreases bs
  {
    if k > 0 {
      assert bs[1..][k - 1] == bs[k];
      FindDistinct(bs[1..], k - 1);
    }
  }

  // ---------- expanding a pattern under a binding list ----------

  /** The list binds every name of the pattern, with the tag its place asks for, and no keyword. */
  ghost predicate Covers(keywords: Value, pattern: Value, bs: seq<MacroBinding>)
    decreases pattern
  {
    pattern.Pair? ==>
      if AtEllipsis(pattern) then
        pattern.car.Sym? && FindBinding(bs, pattern.car).Some? && FindBinding(bs, pattern.car).value.variadic
      else
        && (if pattern.car.Sym? then
              if InKeywords(keywords, pattern.car) then FindBinding(bs, pattern.car).None?
              else FindBinding(bs, pattern.car).Some? && !FindBinding(bs, pattern.car).value.variadic
            else Covers(keywords, pattern.car, bs))
        && Covers(keywords, pattern.cdr, bs)
  }

  /** What the pattern stands for under the list. */
  function Instance(pattern: Value, bs: seq<MacroBinding>): Value {
    if pattern.Pair? then Expand(bs, pattern) else Null
  }

  /** Each nested pattern stands for a non-empty list. */
  predicate NestedNonEmpty(pattern: Value, bs: seq<MacroBinding>) {
    pattern.Pair? && !AtEllipsis(pattern) ==>
      && (pattern.car.Pair? ==> Instance(pattern.car, bs).Pair? && NestedNonEmpty(pattern.car, bs))
      && NestedNonEmpty(pattern.cdr, bs)
  }

  lemma InstanceUnfolds(keywords: Value, pattern: Value, bs: seq<MacroBinding>)
    requires pattern.Pair? && !AtEllipsis(pattern) && Covers(keywords, pattern, bs)
    ensures var e := Instance(pattern, bs);
      && e.Pair? && e.cdr == Instance(pattern.cdr, bs)
      && e.car == (if pattern.car.Sym? && !InKeywords(keywords, pattern.car) then
                     FindBinding(bs, pattern.car).value.value
                   else if pattern.car.Pair? then Instance(pattern.car, bs)
                   else pattern.car)
  {
  }

  /** Completeness: the matcher accepts an instance of the pattern exactly when no nested pattern stands
      for the empty list. */
  lemma {:induction false} MatchesInstance(keywords: Value, pattern: Value, bs: seq<MacroBinding>)
    requires Covers(keywords, pattern, bs)
    ensures Matches(keywords, pattern, Instance(pattern, bs)) <==> NestedNonEmpty(pattern, bs)
    decreases pattern
  {
    if pattern.Pair? && !AtEllipsis(pattern) {
      InstanceUnfolds(keywords, pattern, bs);
      if pattern.car.Pair? { MatchesInstance(keywords, pattern.car, bs); }
      MatchesInstance(keywords, pattern.cdr, bs);
    }
  }

  /** Matching an instance finds again what was substituted. */
  lemma {:induction false} BindingsOfInstance(keywords: Value, pattern: Value, bs: seq<MacroBinding>, k: nat)
    requires Covers(keywords, pattern, bs) && NestedNonEmpty(pattern, bs)
    requires forall b | b in bs && b.variadic :: b.value.Pair? || b.value.Null?
    requires k < |BindingsOf(keywords, pattern, Instance(pattern, bs))|
    ensures var b := BindingsOf(keywords, pattern, Instance(pattern, bs))[k];
      var found := FindBinding(bs, b.name);
      found.Some? && found.value.value == b.value && found.value.variadic == b.variadic
    decreases pattern
  {
    if !AtEllipsis(pattern) {
      InstanceUnfolds(keywords, pattern, bs);
      var e := Instance(pattern, bs);
      var first := FirstBindings(keywords, pattern, e);
      BindingsParts(keywords, pattern, e);
      if k >= |first| {
        assert BindingsOf(keywords, pattern, e)[k] == BindingsOf(keywords, pattern.cdr, e.cdr)[k - |first|];
        BindingsOfInstance(keywords, pattern.cdr, bs, k - |first|);
      } else if pattern.car.Pair? {
        BindingsOfInstance(keywords, pattern.car, bs, k);
      }
    }
  }

  // ---------- the round trip ----------

  /** The expression's lists end, where the pattern looks, with nothing after them. */
  predicate ProperFor(pattern: Value, expr: Value)
    decreases pattern
  {
    if !pattern.Pair? then expr == Null
    else if AtEllipsis(pattern) then expr.Pair? || expr == Null
    else
      && expr.Pair?
      && (pattern.car.Pair? ==> ProperFor(pattern.car, expr.car))
      && ProperFor(pattern.cdr, expr.cdr)
  }

  /** Bindings that agree with an accepted expression rebuild it, except for dotted tails. */
  lemma {:induction false} ExpandRebuilds(keywords: Value, pattern: Value, expr: Value, bs: seq<MacroBinding>)
    requires Matches(keywords, pattern, expr) && EllipsesFollowSymbols(pattern)
    requires forall b | b in BindingsOf(keywords, pattern, expr) :: FindBinding(bs, b.name) == Some(b)
    requires forall b | b in bs :: !InKeywords(keywords, b.name)
    ensures Covers(keywords, pattern, bs)
    ensures Instance(pattern, bs) == expr <==> ProperFor(pattern, expr)
    decreases pattern
  {
    if pattern.Pair? {
      var all := BindingsOf(keywords, pattern, expr);
      if AtEllipsis(pattern) {
        assert all[0] in all;
      } else {
        var rest := BindingsOf(keywords, pattern.cdr, expr.cdr);
        forall b | b in rest ensures b in all {}
        if pattern.car.Sym? {
          if !InKeywords(keywords, pattern.car) { assert all[0] in all; }
        } else if pattern.car.Pair? {
          forall b | b in BindingsOf(keywords, pattern.car, expr.car) ensures b in all {}
          ExpandRebuilds(keywords, pattern.car, expr.car, bs);
        }
        ExpandRebuilds(keywords, pattern.cdr, expr.cdr, bs);
        InstanceUnfolds(keywords, pattern, bs);
      }
    }
  }

  lemma FindInReversed(bs: seq<MacroBinding>)
    requires forall i, j | 0 <= i < j < |bs| :: bs[i].name != bs[j].name
    ensures forall b | b in bs :: FindBinding(Reversed(bs), b.name) == Some(b)
    ensures forall b | b in Reversed(bs) :: b in bs
  {
    var r := Reversed(bs);
    forall b | b in bs ensures FindBinding(r, b.name) == Some(b) {
      var k :| 0 <= k < |bs| && bs[k] == b;
      assert r[|bs| - 1 - k] == b;
      FindDistinct(r, |bs| - 1 - k);
    }
  }

  /** The macro round trip: if a pattern with distinct variables accepts an expression, expanding the
      pattern itself under the bindings rebuilds the expression exactly, ellipsis tails, keywords and
      literals included, if and only if the lists that the pattern walks to their end are proper. */
  lemma RoundTrip(keywords: Value, pattern: Value, expr: Value)
    requires pattern.Pair? && WfPattern(keywords, pattern) && Matches(keywords, pattern, expr)
    ensures Expand(BuildBindings(keywords, pattern, expr, []), pattern) == expr <==> ProperFor(pattern, expr)
    ensures Covers(keywords, pattern, BuildBindings(keywords, pattern, expr, []))
  {
    hide BuildBindings, Expand, Matches, ProperFor, BindingsOf, Names, Reversed, FindBinding, InKeywords, Covers,
      EllipsesFollowSymbols;
    var bs := BindingsOf(keywords, pattern, expr);
    var built := BuildBindings(keywords, pattern, expr, []);
    BuildIsBindingsOf(keywords, pattern, expr, []);
    assert built == Reversed(bs) by { assert Reversed(bs) + [] == Reversed(bs); }
    NamesOfBindings(keywords, pattern, expr);
    FindInReversed(bs);
    forall b | b in built ensures !InKeywords(keywords, b.name) {
      var k :| 0 <= k < |bs| && bs[k] == b;
      assert Names(keywords, pattern)[k] == b.name;
    }
    ExpandRebuilds(keywords, pattern, expr, built);
  }

  /** A list that ends in the empty list, and so do the lists in it. */
  predicate Proper(list: Value) {
    if list.Pair? then (list.car.Pair? ==> Proper(list.car)) && Proper(list.cdr) else list == Null
  }

  lemma {:induction false} AcceptedIsProper(keywords: Value, pattern: Value, expr: Value)
    requires Proper(expr) && Matches(keywords, pattern, expr)
    ensures ProperFor(pattern, expr)
    decreases pattern
  {
    if pattern.Pair? && !AtEllipsis(pattern) {
      if pattern.car.Pair? { AcceptedIsProper(keywords, pattern.car, expr.car); }
      AcceptedIsProper(keywords, pattern.cdr, expr.cdr);
    }
  }

  /** `expr` is the pattern with something in the place of every variable, and no nested list left empty. */
  ghost predicate IsInstance(keywords: Value, pattern: Value, bs: seq<MacroBinding>, expr: Value) {
    Covers(keywords, pattern, bs) && NestedNonEmpty(pattern, bs) && Instance(pattern, bs) == expr
  }

  /** A pattern accepts exactly its instances: not one element more or less. */
  lemma AcceptsInstances(keywords: Value, pattern: Value, expr: Value)
    requires pattern.Pair? && WfPattern(keywords, pattern) && Proper(expr)
    ensures Matches(keywords, pattern, expr) <==> exists bs :: IsInstance(keywords, pattern, bs, expr)
  {
    hide WfPattern, Matches, BuildBindings, Covers, NestedNonEmpty, ProperFor;
    if Matches(keywords, pattern, expr) {
      var bs := BuildBindings(keywords, pattern, expr, []);
      AcceptedIsProper(keywords, pattern, expr);
      RoundTrip(keywords, pattern, expr);
      MatchesInstance(keywords, pattern, bs);
      assert IsInstance(keywords, pattern, bs, expr);
    }
    if bs :| IsInstance(keywords, pattern, bs, expr) { MatchesInstance(keywords, pattern, bs); }
  }

  /** An ellipsis accepts whatever is left and binds its symbol to it. */
  lemma EllipsisTakesRest(keywords: Value, x: Value, more: Value, expr: Value, bs: seq<MacroBinding>)
    ensures var pattern := Pair(x, Pair(Sym("..."), more));
      && Matches(keywords, pattern, expr)
      && BuildBindings(keywords, pattern, expr, bs) ==
           [MacroBinding(x, if expr.Pair? then expr else Null, true)] + bs
  {
  }

  /** The other way round: substitute into a pattern, match the instance, and every name is bound to what
      was substituted for it. */
  lemma MatchingInverts(keywords: Value, pattern: Value, bs: seq<MacroBinding>, name: Value)
    requires pattern.Pair? && WfPattern(keywords, pattern)
    requires Covers(keywords, pattern, bs) && NestedNonEmpty(pattern, bs)
    requires forall b | b in bs && b.variadic :: b.value.Pair? || b.value.Null?
    requires name in Names(keywords, pattern)
    ensures Matches(keywords, pattern, Expand(bs, pattern))
    ensures var found := FindBinding(BuildBindings(keywords, pattern, Expand(bs, pattern), []), name);
      && found.Some? && FindBinding(bs, name).Some?
      && found.value.value == FindBinding(bs, name).value.value
      && found.value.variadic == FindBinding(bs, name).value.variadic
  {
    var expr := Expand(bs, pattern);
    MatchesInstance(keywords, pattern, bs);
    var of := BindingsOf(keywords, pattern, expr);
    BuildIsBindingsOf(keywords, pattern, expr, []);
    assert BuildBindings(keywords, pattern, expr, []) == Reversed(of);
    NamesOfBindings(keywords, pattern, expr);
    FindInReversed(of);
    var k :| 0 <= k < |Names(keywords, pattern)| && Names(keywords, pattern)[k] == name;
    assert of[k] in of && of[k].name == name;
    BindingsOfInstance(keywords, pattern, bs, k);
  }

  // ---------- rule selection ----------

  predicate RuleShape(rule: Value) {
    rule.Pair? && rule.car.Pair? && rule.cdr.Pair?
  }

  ghost predicate IsFirstMatch(keywords: Value, rules: Value, expr: Value, i: nat) {
    && i < ListLength(rules)
    && (forall k | 0 <= k <= i :: RuleShape(Nth(rules, k)))
    && Matches(keywords, Nth(rules, i).car, expr)
    && forall k | 0 <= k < i :: !Matches(keywords, Nth(rules, k).car, expr)
  }

  /** The first rule in order whose pattern accepts the expression is the one expanded. */
  lemma {:induction false} FirstMatchWins(keywords: Value, rules: Value, expr: Value, i: nat)
    requires IsFirstMatch(keywords, rules, expr, i)
    ensures ExpandRules(keywords, rules, expr) ==
      Expanded(Expand(BuildBindings(keywords, Nth(rules, i).car, expr, []), Nth(rules, i).cdr))
    decreases rules
  {
    if i == 0 {
      assert RuleShape(Nth(rules, 0));
    } else {
      assert RuleShape(Nth(rules, 0)) && !Matches(keywords, Nth(rules, 0).car, expr);
      forall k | 0 <= k < i
        ensures Nth(rules.cdr, k) == Nth(rules, k + 1)
      {
      }
      FirstMatchWins(keywords, rules.cdr, expr, i - 1);
    }
  }

  predicate Accepts(keywords: Value, rule: Value, expr: Value) {
    RuleShape(rule) && Matches(keywords, rule.car, expr)
  }

  ghost predicate NoneAccepts(keywords: Value, rules: Value, expr: Value) {
    forall k | 0 <= k < ListLength(rules) :: !Accepts(keywords, Nth(rules, k), expr)
  }

  lemma NoneAcceptsCons(keywords: Value, rules: Value, expr: Value)
    requires rules.Pair?
    ensures NoneAccepts(keywords, rules, expr) <==>
      !Accepts(keywords, rules.car, expr) && NoneAccepts(keywords, rules.cdr, expr)
  {
    if NoneAccepts(keywords, rules, expr) {
      assert Nth(rules, 0) == rules.car;
      forall k | 0 <= k < ListLength(rules.cdr) ensures !Accepts(keywords, Nth(rules.cdr, k), expr) {
        assert Nth(rules, k + 1) == Nth(rules.cdr, k);
      }
    }
    if !Accepts(keywords, rules.car, expr) && NoneAccepts(keywords, rules.cdr, expr) {
      forall k | 0 <= k < ListLength(rules) ensures !Accepts(keywords, Nth(rules, k), expr) {
        if k > 0 { assert Nth(rules, k) == Nth(rules.cdr, k - 1); }
      }
    }
  }

  /** With no such rule the use is an error, and only then. */
  lemma {:induction false} NoMatchIffNone(keywords: Value, rules: Value, expr: Value)
    requires forall k | 0 <= k < ListLength(rules) :: RuleShape(Nth(rules, k))
    ensures ExpandRules(keywords, rules, expr) == NoMatch <==> NoneAccepts(keywords, rules, expr)
    decreases rules
  {
    if rules.Pair? {
      assert RuleShape(Nth(rules, 0));
      forall k | 0 <= k < ListLength(rules.cdr) ensures Nth(rules.cdr, k) == Nth(rules, k + 1) {}
      NoMatchIffNone(keywords, rules.cdr, expr);
      NoneAcceptsCons(keywords, rules, expr);
    }
  }
}
