/** Scheme values as both engines see them. */
module Values {

  datatype Option<+T> = None | Some(value: T)

  /** A tagged fixnum keeps 62 payload bits: `tag_integer` shifts a 64-bit word left by two. */
  const FIXNUM_LIMIT: nat := 0x4000_0000_0000_0000

  type Fixnum = n: nat | n < FIXNUM_LIMIT

  /** Runtime type tags: the special forms, and the internal set-ptr marker. */
  datatype RunType =
    | NoType
    | Lambda
    | Define
    | DefineSyntax
    | SetBang
    | If
    | Begin
    | Quote
    | Eval
    | SetPtr
    | SyntaxRules

  /** Parse tags: values that only the lexer makes. */
  datatype ParseType = NoToken | LeftParen | RightParen | Octothorpe | EndOfFile | Apostrophe

  /** Pairs are trees: the interpreter has no operation that changes one after it is made. */
  datatype Value =
    | Null
    | Int(n: Fixnum)
    | Bool(b: bool)
    | Char(code: nat)
    | Sym(name: string)
    | Pair(car: Value, cdr: Value)
    | Closure(id: nat)
    | Run(kind: RunType)
    | Rules(keywords: Value, patterns: Value)
    | Parse(token: ParseType)

  /** The run types for which a list head starts a special form. */
  predicate IsSpecialForm(v: Value) {
    v.Run? && v.kind !in {NoType, Eval, SetPtr}
  }

  /** The number of pairs along the spine. */
  function ListLength(v: Value): nat {
    if v.Pair? then 1 + ListLength(v.cdr) else 0
  }

  /** Element `i` of a list. */
  function Nth(list: Value, i: nat): Value
    requires i < ListLength(list)
    decreases list
  {
    if i == 0 then list.car else Nth(list.cdr, i - 1)
  }

  /** The interpreter grows its lists at the front: newest first, and back. */
  function Reversed<T>(s: seq<T>): (r: seq<T>)
    ensures |r| == |s| && forall i | 0 <= i < |s| :: r[i] == s[|s| - 1 - i]
  {
    if s == [] then [] else Reversed(s[1..]) + [s[0]]
  }
}
