/** What applying each built-in gives, on the machine and in the values' own terms. */
module Builtins {
  import opened Values
  import opened Compiler
  import opened Machine
  import opened FrameDiscipline
  import opened Activations
  import opened Transparency
  import opened Tagged

  /** The machine is about to apply the built-in `op` to `args`. */
  ghost predicate Calls(st: VM, op: Primitive, args: seq<Value>) {
    && st.status.Running? && st.argnum == 1 + |args| && |st.stack| == Base(st.frames) + st.argnum
    && st.stack[Base(st.frames) + 1..] == args
    && st.stack[Base(st.frames)].Closure?
    && var id := st.stack[Base(st.frames)].id;
    && id < |st.clos| && st.clos[id].compiled && st.clos[id].code == [Prim(op), Return]
  }

  /** Two steps later the caller has `v` in the place of the call. */
  ghost predicate Yields(st: VM, v: Value) {
    Returned(st, v, After(CallApply(st), 2))
  }

  ghost predicate Errs(st: VM) {
    After(CallApply(st), 1).status.Failed?
  }

  lemma PrimGives(st: VM, op: Primitive, args: seq<Value>, r: PrimResult)
    requires Calls(st, op, args) && r == PrimOf(op, args)
    ensures r.Result? ==> Yields(st, r.value)
    ensures r == Untouched ==> Yields(st, st.stack[Base(st.frames)])
    ensures r == PrimError ==> Errs(st)
  {
    hide PrimOf, Step;
    var f, below := st.stack[Base(st.frames)], st.stack[..Base(st.frames)];
    assert st.stack == below + [f] + args;
    var s1 := CallApply(st);
    StepPrim(s1, op, below, f, args);
    if r.Result? || r == Untouched {
      var s2 := Step(s1);
      StepReturn(s2, if r.Result? then r.value else f);
      assert s2.stack[..|below|] == below;
      TwoSteps(s1);
    } else {
      OneAfter(s1);
    }
  }

  lemma OneAfter(st: VM)
    ensures After(st, 1) == Step(st)
  {
    hide Step;
    assert After(Step(st), 0) == Step(st);
  }

  lemma TwoSteps(st: VM)
    ensures After(st, 2) == Step(Step(st))
  {
    hide Step;
    OneAfter(Step(st));
  }

  // ---------- comparisons ----------

  /** `(< a b)` is true if and only if a is less than b. */
  lemma LessThan(st: VM, a: Fixnum, b: Fixnum)
    requires Calls(st, Less, [Int(a), Int(b)])
    ensures Yields(st, Bool(a < b))
  {
    hide Calls, Yields, Errs;
    PrimGives(st, Less, [Int(a), Int(b)], Result(Bool(a < b)));
  }

  lemma GreaterThan(st: VM, a: Fixnum, b: Fixnum)
    requires Calls(st, Greater, [Int(a), Int(b)])
    ensures Yields(st, Bool(a > b))
  {
    hide Calls, Yields, Errs;
    PrimGives(st, Greater, [Int(a), Int(b)], Result(Bool(a > b)));
  }

  /** `eq?` is equality, of values that are not both pairs or both macros. */
  lemma IsEq(st: VM, a: Value, b: Value)
    requires Calls(st, Equal, [a, b]) && !(a.Pair? && b.Pair?) && !(a.Rules? && b.Rules?)
    ensures Yields(st, Bool(a == b))
  {
    hide Calls, Yields, Errs;
    PrimGives(st, Equal, [a, b], Result(Bool(a == b)));
  }

  // ---------- pairs ----------

  /** `cons` makes a pair from which `car` and `cdr` take its two operands back. */
  lemma ConsCarCdr(st: VM, a: Value, b: Value, first: VM, second: VM)
    requires Calls(st, Cons, [a, b])
    requires Calls(first, Car, [Pair(a, b)]) && Calls(second, Cdr, [Pair(a, b)])
    ensures Yields(st, Pair(a, b)) && Yields(first, a) && Yields(second, b)
  {
    hide Calls, Yields, Errs;
    PrimGives(st, Cons, [a, b], Result(Pair(a, b)));
    PrimGives(first, Car, [Pair(a, b)], Result(a));
    PrimGives(second, Cdr, [Pair(a, b)], Result(b));
  }

  /** `car` and `cdr` of anything but a pair are errors. */
  lemma NoPair(st: VM, op: Primitive, v: Value)
    requires op == Car || op == Cdr
    requires Calls(st, op, [v]) && !v.Pair?
    ensures Errs(st)
  {
    hide Calls, Yields, Errs;
    PrimGives(st, op, [v], PrimError);
  }

  lemma Tests(first: VM, second: VM, v: Value)
    requires Calls(first, IsNull, [v]) && Calls(second, IsPair, [v])
    ensures Yields(first, Bool(v == Null)) && Yields(second, Bool(exists a, b :: v == Pair(a, b)))
  {
    hide Calls, Yields, Errs;
    PrimGives(first, IsNull, [v], Result(Bool(v == Null)));
    PrimGives(second, IsPair, [v], Result(Bool(v.Pair?)));
    if v.Pair? { assert v == Pair(v.car, v.cdr); }
  }

  /** A wrong number of operands is an error, except that the tests then answer with themselves. */
  lemma WrongCounts(st: VM, op: Primitive, args: seq<Value>)
    requires Calls(st, op, args)
    ensures op in {Less, Greater, Equal, Cons} && |args| != 2 ==> Errs(st)
    ensures op in {Car, Cdr} && |args| != 1 ==> Errs(st)
    ensures op in {IsNull, IsPair} && |args| != 1 ==> Yields(st, st.stack[Base(st.frames)])
  {
    hide Yields, Errs;
    PrimGives(st, op, args, PrimOf(op, args));
  }

  // ---------- arithmetic ----------

  function Ints(ns: seq<Fixnum>): (args: seq<Value>)
    ensures |args| == |ns| && forall i | 0 <= i < |ns| :: args[i] == Int(ns[i])
  {
    seq(|ns|, i requires 0 <= i < |ns| => Int(ns[i]))
  }

  function Total(ns: seq<Fixnum>): nat {
    if ns == [] then 0 else Total(ns[..|ns| - 1]) + ns[|ns| - 1]
  }

  function Times(ns: seq<Fixnum>): nat {
    if ns == [] then 1 else Times(ns[..|ns| - 1]) * ns[|ns| - 1]
  }

  lemma {:induction false} OneMore(args: seq<Value>, n: Fixnum)
    requires AllInts(args)
    ensures AllInts(args + [Int(n)])
    ensures Sum(args + [Int(n)]) == Sum(args) + n && Product(args + [Int(n)]) == Product(args) * n
    decreases |args|
  {
    var more := args + [Int(n)];
    if args == [] {
      assert more == [Int(n)] && more[1..] == [];
    } else {
      assert more[0] == args[0] && more[1..] == args[1..] + [Int(n)];
      OneMore(args[1..], n);
      assert args[0].n * (Product(args[1..]) * n) == (args[0].n * Product(args[1..])) * n;
    }
  }

  lemma {:induction false} FoldsAgree(ns: seq<Fixnum>)
    ensures AllInts(Ints(ns)) && Sum(Ints(ns)) == Total(ns) && Product(Ints(ns)) == Times(ns)
    decreases |ns|
  {
    if ns != [] {
      var last := |ns| - 1;
      FoldsAgree(ns[..last]);
      OneMore(Ints(ns[..last]), ns[last]);
      assert Ints(ns) == Ints(ns[..last]) + [Int(ns[last])];
    }
  }

  /** `+` and `*` of any number of fixnums are their sum and their product, `-` takes the others from the first, all
      modulo 2^62. */
  lemma AddMultiply(add: VM, mul: VM, ns: seq<Fixnum>)
    requires Calls(add, Add, Ints(ns)) && Calls(mul, Mul, Ints(ns))
    ensures Yields(add, Int(Total(ns) % FIXNUM_LIMIT)) && Yields(mul, Int(Times(ns) % FIXNUM_LIMIT))
  {
    hide Calls, Yields, Sum, Product, Total, Times;
    FoldsAgree(ns);
    PrimGives(add, Add, Ints(ns), Result(Int(Total(ns) % FIXNUM_LIMIT)));
    PrimGives(mul, Mul, Ints(ns), Result(Int(Times(ns) % FIXNUM_LIMIT)));
  }

  lemma Subtract(st: VM, n: Fixnum, ns: seq<Fixnum>)
    requires Calls(st, Sub, [Int(n)] + Ints(ns))
    ensures Yields(st, Int((n - Total(ns)) % FIXNUM_LIMIT))
  {
    hide Calls, Yields, Sum, Product, Total, Times;
    FoldsAgree(ns);
    var args := [Int(n)] + Ints(ns);
    assert args[1..] == Ints(ns) && args[0] == Int(n);
    PrimGives(st, Sub, args, Result(Int((n - Total(ns)) % FIXNUM_LIMIT)));
  }

  // ---------- division ----------

  function Power(k: nat): nat { if k == 0 then 1 else 4 * Power(k - 1) }

  lemma PartsMultiply(n: nat, power: nat, product: nat)
    ensures (power * product) * (4 * n) == (4 * power) * (product * n)
  {
    assert (power * product) * (4 * n) == 4 * (power * product * n);
    assert (4 * power) * (product * n) == 4 * (power * (product * n));
  }

  lemma {:induction false} DividedIs(word: nat, ns: seq<Fixnum>)
    ensures AllInts(Ints(ns))
    ensures 0 in ns ==> Divided(word, Ints(ns)) == None
    ensures 0 !in ns ==>
      Times(ns) > 0 && Power(|ns|) > 0 && Divided(word, Ints(ns)) == Some(word / (Power(|ns|) * Times(ns)))
    decreases |ns|
  {
    if ns != [] {
      var last := |ns| - 1;
      var n, front := ns[last], ns[..last];
      assert Ints(ns)[..last] == Ints(front);
      assert ns == front + [n];
      if n != 0 {
        var divisor: nat := 4 * n as nat;
        DividedIs(word / divisor, front);
        if 0 !in front {
          var p := Power(last) * Times(front);
          ProductPositive(Power(last), Times(front));
          QuotientTwice(word, divisor, p);
          PartsMultiply(n, Power(last), Times(front));
        }
      }
    } else {
      assert word / 1 == word;
    }
  }

  /** `n` divided by `d` and then `k` times by four. */
  function Quartered(n: nat, d: nat, k: nat): (q: nat)
    requires d > 0
    ensures q <= n
  {
    PowerPositive(k);
    ProductPositive(Power(k), d);
    QuotientOfFour(n, Power(k) * d);
    n / (Power(k) * d)
  }

  lemma FoursCancel(n: nat, d: nat, k: nat)
    requires d > 0
    ensures Power(k + 1) * d > 0 && (4 * n) / (Power(k + 1) * d) == Quartered(n, d, k)
  {
    var power := Power(k);
    PowerPositive(k);
    ProductPositive(power, d);
    QuotientOfFour(n, power * d);
    assert (4 * power) * d == 4 * (power * d);
  }

  /** `/` divides the first argument by the product of the others, and once more by four for every argument after the
      second, since quotients of tagged words are not tagged again. A zero among the others is an error. */
  lemma Divide(st: VM, n: Fixnum, ns: seq<Fixnum>)
    requires ns != [] && Calls(st, Div, [Int(n)] + Ints(ns))
    ensures 0 in ns ==> Errs(st)
    ensures 0 !in ns ==> Times(ns) > 0 && Yields(st, Int(Quartered(n, Times(ns), |ns| - 1)))
  {
    hide Calls, Yields, Errs, Times, Quartered, PrimOf;
    DivisionGives(n, ns);
    var args := [Int(n)] + Ints(ns);
    PrimGives(st, Div, args, PrimOf(Div, args));
  }

  /** One argument alone comes out tagged twice. */
  lemma DivideAlone(st: VM, n: Fixnum)
    requires Calls(st, Div, [Int(n)])
    ensures Yields(st, Int((4 * n) % FIXNUM_LIMIT))
  {
    hide Calls, Yields, Errs;
    assert [Int(n)][1..] == [];
    PrimGives(st, Div, [Int(n)], Result(Int((4 * n) % FIXNUM_LIMIT)));
  }

  lemma DivisionGives(n: Fixnum, ns: seq<Fixnum>)
    requires ns != []
    ensures var r := PrimOf(Div, [Int(n)] + Ints(ns));
      if 0 in ns then r == PrimError
      else Times(ns) > 0 && r == Result(Int(Quartered(n, Times(ns), |ns| - 1)))
  {
    hide Times, Divided, Power, Quartered;
    var args := [Int(n)] + Ints(ns);
    assert args[1..] == Ints(ns) && args[0] == Int(n);
    var four: nat := 4 * n as nat;
    DividedIs(four, ns);
    if 0 !in ns {
      FoursCancel(n, Times(ns), |ns| - 1);
      assert Divided(four, Ints(ns)) == Some(Quartered(n, Times(ns), |ns| - 1));
    }
  }

  lemma {:induction false} PowerPositive(k: nat)
    ensures Power(k) > 0 && (k > 0 ==> Power(k) >= 4)
  {
    if k > 0 { PowerPositive(k - 1); }
  }

  lemma ProductPositive(a: nat, b: nat)
    requires a > 0 && b > 0
    ensures a * b > 0
  {
  }

  /** So it is the quotient if and only if there are two arguments, or the quotient is zero. */
  lemma DividesRight(n: Fixnum, ns: seq<Fixnum>)
    requires ns != [] && 0 !in ns
    ensures Times(ns) > 0
    ensures Quartered(n, Times(ns), |ns| - 1) == n as nat / Times(ns) <==> |ns| == 1 || n < Times(ns)
  {
    hide Times, Divided, Power;
    DividedIs(0, ns);
    PowerPositive(|ns| - 1);
    NoPower();
    QuotientsAgree(n, Times(ns), Power(|ns| - 1));
  }

  lemma NoPower()
    ensures Power(0) == 1
  {
  }

  lemma QuotientsAgree(n: nat, product: nat, power: nat)
    requires product > 0 && (power == 1 || power >= 4)
    ensures power * product > 0 && (n / (power * product) == n / product <==> power == 1 || n < product)
  {
    ProductPositive(power, product);
    QuotientTwice(n, product, power);
    ZeroQuotient(n, product);
    Shrinks(n / product, power);
  }

  lemma ZeroQuotient(n: nat, d: nat)
    requires d > 0
    ensures n / d == 0 <==> n < d
  {
    IsQuotientOf(n, d);
    if n < d { QuotientUnique(n, d, 0); }
  }

  lemma Shrinks(q: nat, power: nat)
    requires power == 1 || power >= 4
    ensures q / power == q <==> power == 1 || q == 0
  {
    IsQuotientOf(q, power);
    if power >= 4 && q / power == q { assert power * q >= 4 * q; }
  }
}
