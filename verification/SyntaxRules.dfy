/** `syntax-rules`: matching, binding and expansion. */
module SyntaxRules {
  import opened Values

  /** `name` is the pattern element itself; only symbols are ever looked up. */
  datatype MacroBinding = MacroBinding(name: Value, value: Value, variadic: bool)

  const ELLIPSIS: Value := Sym("...")

  predicate InKeywords(keywords: Value, sym: Value) {
    keywords.Pair? && (keywords.car == sym || InKeywords(keywords.cdr, sym))
  }

  /** The pattern's next element is the ellipsis. */
  predicate AtEllipsis(pattern: Value) {
    pattern.Pair? && pattern.cdr.Pair? && pattern.cdr.car == ELLIPSIS
  }

  predicate Matches(keywords: Value, pattern: Value, expr: Value)
    decreases pattern
  {
    if !pattern.Pair? then !expr.Pair?
    else if AtEllipsis(pattern) then true
    else if !expr.Pair? then false
    else
      && (if pattern.car.Sym? then InKeywords(keywords, pattern.car) ==> expr.car == pattern.car
          else if pattern.car.Pair? then expr.car.Pair? && Matches(keywords, pattern.car, expr.car)
          else pattern.car == expr.car)
      && Matches(keywords, pattern.cdr, expr.cdr)
  }

  /** The binding list with the newest binding first. */
  function BuildBindings(keywords: Value, pattern: Value, expr: Value, bs: seq<MacroBinding>): seq<MacroBinding>
    decreases pattern
  {
    if !pattern.Pair? then bs
    else if AtEllipsis(pattern) then
      [MacroBinding(pattern.car, if expr.Pair? then expr else Null, true)] + bs
    else if !expr.Pair? then bs
    else
      var bs' :=
        if pattern.car.Sym? then
          if InKeywords(keywords, pattern.car) then bs else [MacroBinding(pattern.car, expr.car, false)] + bs
        else if pattern.car.Pair? then BuildBindings(keywords, pattern.car, expr.car, bs)
        else bs;
      BuildBindings(keywords, pattern.cdr, expr.cdr, bs')
  }

  function FindBinding(bs: seq<MacroBinding>, name: Value): (r: Option<MacroBinding>)
    ensures r.Some? ==> r.value in bs && r.value.name == name
    ensures r.None? ==> forall b | b in bs :: b.name != name
  {
    if bs == [] then None else if bs[0].name == name then Some(bs[0]) else FindBinding(bs[1..], name)
  }

  /** A variadic symbol replaces the rest of the list it stands in. Dotted tails are dropped. */
  function Expand(bs: seq<MacroBinding>, template: Value): Value
    requires template.Pair?
    decreases template
  {
    var found := if template.car.Sym? then FindBinding(bs, template.car) else None;
    if found.Some? && found.value.variadic then found.value.value
    else
      var car :=
        if found.Some? then found.value.value
        else if template.car.Pair? then Expand(bs, template.car)
        else template.car;
      Pair(car, if template.cdr.Pair? then Expand(bs, template.cdr) else Null)
  }

  datatype Expansion = Expanded(value: Value) | NoMatch | Malformed

  /** The first rule whose pattern accepts the expression; malformed rules are undefined in the source. */
  function ExpandRules(keywords: Value, rules: Value, expr: Value): Expansion
    decreases rules
  {
    if !rules.Pair? then NoMatch
    else
      var rule := rules.car;
      if !rule.Pair? || !rule.car.Pair? || !rule.cdr.Pair? then Malformed
      else if Matches(keywords, rule.car, expr) then
        Expanded(Expand(BuildBindings(keywords, rule.car, expr, []), rule.cdr))
      else ExpandRules(keywords, rules.cdr, expr)
  }
}
