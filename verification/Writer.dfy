/** `write_value` and `write_list`: the printed form of a value. */
module Writer {
  import opened Values

  /** `%lu`. */
  function Decimal(n: nat): (s: string)
    ensures s != "" && '0' <= s[0] <= '9'
  {
    var digit := ('0' as nat + n % 10) as char;
    if n < 10 then [digit] else Decimal(n / 10) + [digit]
  }

  function RunName(k: RunType): string {
    match k
    case NoType => "<none>"
    case Lambda => "lambda"
    case Define => "define"
    case DefineSyntax => "define-syntax"
    case SetBang => "set!"
    case If => "if"
    case Begin => "begin"
    case Quote => "quote"
    case Eval => "eval"
    case SetPtr => "<intern:set-ptr>"
    case SyntaxRules => "syntax-rules"
  }

  /** `shown` is what a closure prints as: its mode and its address. */
  function Written(v: Value, shown: nat -> string): (s: string)
    decreases v, 1
  {
    match v
    case Int(n) => Decimal(n)
    case Bool(b) => "#" + if b then "t" else "f"
    case Char(code) => "#\\" + [(code % 256) as char]
    case Pair(_, _) => "(" + WrittenItems(v, shown) + ")"
    case Sym(name) => name
    case Null => "()"
    case Closure(id) => shown(id)
    case Rules(_, _) => "#<syntax-rules>"
    case Run(kind) => "#<runtime type:" + RunName(kind) + ">"
    case Parse(EndOfFile) => "#<end of file>"
    case Parse(_) => "#<unknown>"
  }

  /** What stands between the parentheses. */
  function WrittenItems(p: Value, shown: nat -> string): (s: string)
    requires p.Pair?
    decreases p, 0
  {
    Written(p.car, shown) + WrittenRest(p.cdr, shown)
  }

  /** What follows an element. */
  function WrittenRest(cdr: Value, shown: nat -> string): (s: string)
    decreases cdr, 2
  {
    if cdr.Pair? then " " + WrittenItems(cdr, shown)
    else if cdr.Null? then ""
    else " . " + Written(cdr, shown)
  }

  class Printer {
    const shown: nat -> string
    var out: string

    constructor (shown: nat -> string)
      ensures this.shown == shown && out == ""
    {
      this.shown := shown;
      out := "";
    }

    method WriteValue(v: Value)
      modifies this
      ensures out == old(out) + Written(v, shown)
      decreases v, 1
    {
      match v {
        case Int(n) => out := out + Decimal(n);
        case Bool(b) => out := out + "#" + if b then "t" else "f";
        case Char(code) => out := out + "#\\" + [(code % 256) as char];
        case Pair(_, _) => WriteList(v);
        case Sym(name) => out := out + name;
        case Null => out := out + "()";
        case Closure(id) => out := out + shown(id);
        case Rules(_, _) => out := out + "#<syntax-rules>";
        case Run(kind) => out := out + "#<runtime type:" + RunName(kind) + ">";
        case Parse(EndOfFile) => out := out + "#<end of file>";
        case Parse(_) => out := out + "#<unknown>";
      }
    }

    method WriteList(v: Value)
      requires v.Pair?
      modifies this
      ensures out == old(out) + Written(v, shown)
      decreases v, 0
    {
      hide Written;
      out := out + "(";
      ghost var start := out;
      var pair, more := v, true;
      while more
        invariant pair.Pair? && (pair == v || pair < v)
        invariant start + WrittenItems(v, shown) == if more then out + WrittenItems(pair, shown) else out
        decreases more, pair
      {
        ghost var before, item, rest := out, Written(pair.car, shown), WrittenRest(pair.cdr, shown);
        WriteValue(pair.car);
        Assoc(before, item, rest);
        before := out;
        if pair.cdr.Pair? {
          pair := pair.cdr;
          out := out + " ";
          Assoc(before, " ", WrittenItems(pair, shown));
        } else {
          if !pair.cdr.Null? {
            out := out + " . ";
            WriteValue(pair.cdr);
            Assoc(before, " . ", Written(pair.cdr, shown));
          }
          more := false;
        }
      }
      out := out + ")";
      Parenthesised(old(out), v, shown);
    }
  }

  lemma Assoc(a: string, b: string, c: string)
    ensures a + b + c == a + (b + c)
  {
  }

  lemma Parenthesised(a: string, v: Value, shown: nat -> string)
    requires v.Pair?
    ensures a + "(" + WrittenItems(v, shown) + ")" == a + Written(v, shown)
  {
  }
}
