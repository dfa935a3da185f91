/** The macro expander as the source runs it: cursors over lists, and a binding list changed in place. */
module MacroExpander {
  import opened Values
  import opened SyntaxRules

  /** `symbol_in_list`. */
  method SymbolInList(keywords: Value, sym: Value) returns (found: bool)
    ensures found == InKeywords(keywords, sym)
  {
    var it := keywords;
    while it.Pair?
      invariant InKeywords(it, sym) == InKeywords(keywords, sym)
      decreases it
    {
      if it.car == sym { return true; }
      it := it.cdr;
    }
    found := false;
  }

  /** `matches`: two cursors in step; a nested pattern recurses. */
  method MatchList(keywords: Value, pattern: Value, expr: Value) returns (ok: bool)
    ensures ok == Matches(keywords, pattern, expr)
    decreases pattern
  {
    var p, e := pattern, expr;
    while p.Pair?
      invariant p == pattern || p < pattern
      invariant Matches(keywords, p, e) == Matches(keywords, pattern, expr)
      decreases p
    {
      if p.cdr.Pair? && p.cdr.car == ELLIPSIS { return true; }
      if !e.Pair? { return false; }
      if p.car.Sym? {
        var isKeyword := SymbolInList(keywords, p.car);
        if isKeyword && e.car != p.car { return false; }
      } else if p.car.Pair? {
        if !e.car.Pair? { return false; }
        var inner := MatchList(keywords, p.car, e.car);
        if !inner { return false; }
      } else if p.car != e.car {
        return false;
      }
      p, e := p.cdr, e.cdr;
    }
    ok := !e.Pair?;
  }

  class BindingList {
    var bindings: seq<MacroBinding>

    constructor ()
      ensures bindings == []
    {
      bindings := [];
    }

    method AddBinding(b: MacroBinding)
      modifies this
      ensures bindings == [b] + old(bindings)
    {
      bindings := [b] + bindings;
    }

    method Find(name: Value) returns (r: Option<MacroBinding>)
      ensures r == FindBinding(bindings, name)
    {
      var i := 0;
      while i < |bindings|
        invariant i <= |bindings|
        invariant FindBinding(bindings[i..], name) == FindBinding(bindings, name)
      {
        if bindings[i].name == name { return Some(bindings[i]); }
        i := i + 1;
      }
      r := None;
    }

    /** `build_bindings`. */
    method Build(keywords: Value, pattern: Value, expr: Value)
      modifies this
      ensures bindings == BuildBindings(keywords, pattern, expr, old(bindings))
      decreases pattern
    {
      var p, e := pattern, expr;
      while p.Pair?
        invariant p == pattern || p < pattern
        invariant BuildBindings(keywords, p, e, bindings) == BuildBindings(keywords, pattern, expr, old(bindings))
        decreases p
      {
        if p.cdr.Pair? && p.cdr.car == ELLIPSIS {
          AddBinding(MacroBinding(p.car, if e.Pair? then e else Null, true));
          return;
        }
        if !e.Pair? { return; }
        if p.car.Sym? {
          var isKeyword := SymbolInList(keywords, p.car);
          if !isKeyword { AddBinding(MacroBinding(p.car, e.car, false)); }
        } else if p.car.Pair? {
          Build(keywords, p.car, e.car);
        }
        p, e := p.cdr, e.cdr;
      }
    }

    /** `expand`: fresh pairs throughout. */
    method ExpandTemplate(template: Value) returns (r: Value)
      requires template.Pair?
      ensures r == Expand(bindings, template)
      decreases template
    {
      var car, cdr := template.car, Null;
      if template.car.Sym? {
        var found := Find(template.car);
        if found.Some? {
          if found.value.variadic { return found.value.value; }
          car := found.value.value;
        }
      } else if template.car.Pair? {
        car := ExpandTemplate(template.car);
      }
      if template.cdr.Pair? { cdr := ExpandTemplate(template.cdr); }
      r := Pair(car, cdr);
    }
  }

  /** `expand_syntax_rules`, where each rule up to the first that matches has the shape the source reads. */
  method ExpandSyntaxRules(keywords: Value, rules: Value, expr: Value) returns (r: Expansion)
    requires !ExpandRules(keywords, rules, expr).Malformed?
    ensures r == ExpandRules(keywords, rules, expr)
  {
    var it := rules;
    while it.Pair?
      invariant ExpandRules(keywords, it, expr) == ExpandRules(keywords, rules, expr)
      decreases it
    {
      var pattern, expansion := it.car.car, it.car.cdr;
      var ok := MatchList(keywords, pattern, expr);
      if ok {
        var list := new BindingList();
        list.Build(keywords, pattern, expr);
        var value := list.ExpandTemplate(expansion);
        return Expanded(value);
      }
      it := it.cdr;
    }
    r := NoMatch;
  }
}
