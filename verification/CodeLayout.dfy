/** Where the pieces of generated code lie. */
module CodeLayout {
  import opened Values
  import opened EnvStore
  import opened Compiler

  /** `part` lies at index `ip` of `code`. */
  ghost predicate At<T>(code: seq<T>, ip: nat, part: seq<T>) {
    ip + |part| <= |code| && forall i | 0 <= i < |part| :: code[ip + i] == part[i]
  }

  lemma AtFirst<T>(code: seq<T>, ip: nat, part: seq<T>)
    requires At(code, ip, part) && part != []
    ensures ip < |code| && code[ip] == part[0]
  {
    assert code[ip + 0] == part[0];
  }

  lemma AtConcat<T>(code: seq<T>, ip: nat, a: seq<T>, b: seq<T>)
    requires At(code, ip, a + b)
    ensures At(code, ip, a) && At(code, ip + |a|, b)
  {
    forall i | 0 <= i < |a| ensures code[ip + i] == a[i] { assert (a + b)[i] == a[i]; }
    forall i | 0 <= i < |b| ensures code[ip + |a| + i] == b[i] { assert (a + b)[|a| + i] == b[i]; }
  }

  lemma PiecesAt<T>(code: seq<T>, ip: nat, c1: seq<T>, jump: T, c2: seq<T>, skip: T, c3: seq<T>)
    requires At(code, ip, (((c1 + [jump]) + c2) + [skip]) + c3)
    ensures At(code, ip, c1) && At(code, ip + |c1| + 1, c2) && At(code, ip + |c1| + |c2| + 2, c3)
    ensures ip + |c1| < |code| && code[ip + |c1|] == jump
    ensures ip + |c1| + |c2| + 1 < |code| && code[ip + |c1| + |c2| + 1] == skip
  {
    hide At;
    AtConcat(code, ip, ((c1 + [jump]) + c2) + [skip], c3);
    AtConcat(code, ip, (c1 + [jump]) + c2, [skip]);
    AtConcat(code, ip, c1 + [jump], c2);
    AtConcat(code, ip, c1, [jump]);
    AtFirst(code, ip + |c1|, [jump]);
    AtFirst(code, ip + |c1| + 1 + |c2|, [skip]);
  }

  /** Only forward jumps separate this point from the activation's return. */
  ghost predicate ReachesReturn(code: seq<Instr>, ip: nat)
    decreases |code| - ip
  {
    && ip < |code|
    && match code[ip]
       case ReturnLast => true
       case Jump(target) => ip < target && ReachesReturn(code, target)
       case _ => false
  }

  /** The code of an `if` in pieces. An arm that is missing has no code. */
  lemma IfCode(g: Bindings, t: Table, e: Value, tail: bool, d: nat, ip: nat)
    returns (test: seq<Instr>, left: seq<Instr>, right: seq<Instr>)
    requires IsStatement(g, e, If)
    ensures test == if e.cdr.Pair? then CompElem(g, t, e.cdr.car, false, d, ip) else []
    ensures left == if e.cdr.Pair? && e.cdr.cdr.Pair? then
                      CompElem(g, t, e.cdr.cdr.car, tail, d, ip + |test| + 1)
                    else []
    ensures right == if e.cdr.Pair? && e.cdr.cdr.Pair? && e.cdr.cdr.cdr.Pair? then
                       CompElem(g, t, e.cdr.cdr.cdr.car, tail, d, ip + |test| + |left| + 2)
                     else []
    ensures CompElem(g, t, e, tail, d, ip) == Branches(test, left, right, ip)
  {
    hide Branches, CompList;
    test := if e.cdr.Pair? then CompElem(g, t, e.cdr.car, false, d, ip) else [];
    left := if e.cdr.Pair? && e.cdr.cdr.Pair? then CompElem(g, t, e.cdr.cdr.car, tail, d, ip + |test| + 1) else [];
    right :=
      if e.cdr.Pair? && e.cdr.cdr.Pair? && e.cdr.cdr.cdr.Pair? then
        CompElem(g, t, e.cdr.cdr.cdr.car, tail, d, ip + |test| + |left| + 2)
      else [];
  }
}
