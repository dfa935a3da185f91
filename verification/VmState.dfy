/** The virtual machine as the source runs it: arrays and counters updated in place. Each method does
    to the machine what the step function says. */
module VmState {
  import opened Values
  import opened EnvStore
  import opened Compiler
  import M = Machine
  import T = Tagged
  import CompilerState
  import MacroExpander
  import S = SyntaxRules
  import F = FrameDiscipline

  /** Same state; or both stopped by an error, after which the source's other fields do not matter. */
  ghost predicate Agrees(now: M.VM, spec: M.VM) {
    if spec.status.Failed? then now.status.Failed? else now == spec
  }

  /** The arrays hold what one step may push. */
  ghost predicate Fits(st: M.VM, slots: nat, frames: nat) {
    && |st.stack| + 8 <= slots && |st.frames| + 2 <= frames
    && forall id | 0 <= id < |st.clos| :: |st.stack| + ListLength(st.clos[id].args) + 8 <= slots
  }

  /** The next `n` steps have room and are defined. */
  ghost predicate Clear(st: M.VM, n: nat, slots: nat, frames: nat)
    decreases n
  {
    n > 0 && st.status.Running? ==>
      Fits(st, slots, frames) && M.Step(st).status != M.Undefined && Clear(M.Step(st), n - 1, slots, frames)
  }

  lemma SubOf(args: seq<Value>)
    ensures M.PrimOf(Sub, args) == M.PrimUndefined <==> args == [] || !M.AllInts(args)
    ensures args != [] && M.AllInts(args) ==>
      M.PrimOf(Sub, args) == M.Result(Int((args[0].n - M.Sum(args[1..])) % FIXNUM_LIMIT))
  {
  }

  lemma FixnumWord(n: Fixnum)
    ensures T.TagInteger(n) == 4 * n
  {
    T.TagIsPayload(n);
  }

  lemma DividedStep(word: nat, divisors: seq<Value>)
    requires M.AllInts(divisors)
    ensures divisors == [] ==> M.Divided(word, divisors) == Some(word)
    ensures divisors != [] ==>
      var last := divisors[|divisors| - 1];
      && last.Int?
      && M.Divided(word, divisors) ==
           if last.n == 0 then None else M.Divided(word / (4 * last.n), divisors[..|divisors| - 1])
  {
  }

  /** One turn of the loop of `vm_op_div`. */
  lemma DividedTurn(word: nat, args: seq<Value>, n: nat)
    requires 0 < n < |args| && M.AllInts(args)
    ensures args[n].Int? && M.AllInts(args[1..1 + n]) && M.AllInts(args[1..n])
    ensures var divisor := T.TagInteger(args[n].n);
      M.Divided(word, args[1..1 + n]) == if divisor == 0 then None else M.Divided(word / divisor, args[1..n])
  {
    hide M.Divided;
    DividedStep(word, args[1..1 + n]);
    assert args[1..1 + n][..n - 1] == args[1..n] && args[1..1 + n][n - 1] == args[n];
    FixnumWord(args[n].n);
  }

  lemma DivOf(args: seq<Value>)
    ensures M.PrimOf(Div, args) == M.PrimUndefined <==> args == [] || !M.AllInts(args)
    ensures args != [] && M.AllInts(args) ==>
      var word := M.Divided(4 * args[0].n, args[1..]);
      M.PrimOf(Div, args) == if word.None? then M.PrimError else M.Result(Int(word.value % FIXNUM_LIMIT))
  {
  }

  lemma SumGrows(x: Value, rest: seq<Value>)
    requires M.AllInts([x] + rest) && M.AllInts(rest)
    ensures x.Int? && M.Sum([x] + rest) == x.n + M.Sum(rest)
  {
    assert ([x] + rest)[0] == x && ([x] + rest)[1..] == rest;
  }

  lemma EmptySum()
    ensures M.Sum([]) == 0
  {
  }

  lemma EmptyProduct()
    ensures M.Product([]) == 1
  {
  }

  /** One more factor, on untagged words. */
  lemma ProductGrows(x: Value, rest: seq<Value>)
    requires M.AllInts([x] + rest) && M.AllInts(rest) && M.Product(rest) >= 0
    ensures x.Int? && M.Product([x] + rest) == x.n * M.Product(rest) >= 0
    ensures ((M.Product(rest) % T.WORD) * T.GetInteger(T.TagInteger(x.n))) % T.WORD == M.Product([x] + rest) % T.WORD
  {
    assert ([x] + rest)[0] == x && ([x] + rest)[1..] == rest;
    T.TagIsPayload(x.n);
    T.MulWord(M.Product(rest), x.n);
  }

  lemma WrongCount(op: Primitive, args: seq<Value>)
    requires op in {Less, Greater, Equal, Cons} && |args| != 2
    ensures M.PrimOf(op, args) == M.PrimError
  {
  }

  lemma NotOne(op: Primitive, args: seq<Value>)
    requires op in {IsNull, IsPair, Car, Cdr} && |args| != 1
    ensures M.PrimOf(op, args) == if op == IsNull || op == IsPair then M.Untouched else M.PrimError
  {
  }

  lemma OnOne(op: Primitive, v: Value)
    requires op in {IsNull, IsPair, Car, Cdr}
    ensures M.PrimOf(op, [v]) ==
      if op == IsNull then M.Result(Bool(v.Null?))
      else if op == IsPair then M.Result(Bool(v.Pair?))
      else if !v.Pair? then M.PrimError
      else if op == Car then M.Result(v.car)
      else M.Result(v.cdr)
  {
  }

  /** The comparisons look at tagged words, which lie in the order of what they tag. */
  lemma WordsOrder(x: Fixnum, y: Fixnum)
    ensures T.TagInteger(x) < T.TagInteger(y) <==> x < y
    ensures T.TagInteger(x) == T.TagInteger(y) <==> x == y
  {
    FixnumWord(x);
    FixnumWord(y);
  }

  function BinaryResult(op: Primitive, first: Value, second: Value): (r: Value)
    requires op in {Less, Greater, Equal, Cons} && M.PrimOf(op, [first, second]) != M.PrimUndefined
    ensures M.PrimOf(op, [first, second]) == M.Result(r)
  {
    assert [first, second][0] == first && [first, second][1] == second;
    match op
    case Less =>
      WordsOrder(first.n, second.n);
      Bool(T.TagInteger(first.n) < T.TagInteger(second.n))
    case Greater =>
      WordsOrder(first.n, second.n);
      Bool(T.TagInteger(first.n) > T.TagInteger(second.n))
    case Equal => Bool(first == second)
    case _ => Pair(first, second)
  }

  lemma BindFirst(vars: map<Value, Value>, params: Value, args: seq<Value>, i: nat)
    requires params.Pair? && i + ListLength(params) == |args|
    ensures M.BindArgs(vars, params, args[i..]) == M.BindArgs(vars[params.car := args[i]], params.cdr, args[i + 1..])
  {
    assert args[i..][1..] == args[i + 1..];
  }

  lemma EntersDefined(st: M.VM, id: nat)
    requires id < |st.clos| && 0 < st.argnum <= |st.stack| && M.EnterInterpreted(st, id).status != M.Undefined
    ensures st.clos[id].env < |st.envs| && M.CountCall(st.envs, st.clos[id]) != M.WarmUndefined
    ensures M.CountCall(st.envs, st.clos[id]).WarmFailure? ==> M.EnterInterpreted(st, id).status.Failed?
  {
    hide M.CountCall, M.BindArgs;
  }

  /** Entering a closure, in terms of the state in which the call has been counted. */
  lemma Entering(st: M.VM, id: nat, counted: M.VM)
    requires id < |st.clos| && 0 < st.argnum <= |st.stack| && st.clos[id].env < |st.envs|
    requires M.CountCall(st.envs, st.clos[id]).Warm?
    requires counted == st.(closure := id, mode := M.Interpreted,
                            clos := st.clos[id := M.CountCall(st.envs, st.clos[id]).clos])
    ensures var c, base := st.clos[id], |st.stack| - st.argnum;
      M.EnterInterpreted(st, id) ==
        if ListLength(c.args) + 1 != st.argnum then M.Fail(st)
        else
          var frame := EnvFrame(M.BindArgs(map[], c.args, st.stack[base + 1..]), Some(c.env));
          counted.(envs := st.envs + [frame], env := |st.envs|, ptr := c.definition,
                   stack := st.stack[..base] + [Closure(M.RETURN_LAST)], argnum := 1)
  {
    hide M.CountCall, M.BindArgs;
  }

  lemma BindNone(vars: map<Value, Value>, params: Value, args: seq<Value>)
    requires !params.Pair? && args == []
    ensures M.BindArgs(vars, params, args) == vars
  {
  }

  lemma TwoOperands(live: seq<Value>, base: nat)
    requires |live| == base + 3
    ensures live[base + 1..] == [live[base + 1], live[base + 2]]
  {
  }

  class Vm {
    var stack: array<Value>
    var sp: nat
    var calls: array<M.Frame>
    var callp: nat
    var argnum: nat
    var closure: nat
    var runmode: M.Mode
    var ip: nat
    var ptr: Value
    var env: nat
    var clos: seq<M.Clos>
    var envs: seq<EnvFrame>
    var running: bool
    var failed: bool

    ghost predicate Valid()
      reads this
    {
      && 0 < sp + 1 <= stack.Length && callp <= calls.Length
      && (failed ==> !running)
    }

    /** The state with the first `k` slots taken as live. */
    ghost function ViewTo(k: nat): M.VM
      requires Valid() && k <= stack.Length
      reads this, stack, calls
    {
      M.VM(stack[..k], argnum, calls[..callp], closure, runmode, ip, ptr, env, clos, envs,
           if failed then M.Failed else if running then M.Running else M.Done(stack[0]))
    }

    ghost function View(): M.VM
      requires Valid()
      reads this, stack, calls
    {
      ViewTo(sp)
    }

    /** Arrays large enough for any one step. */
    ghost predicate HasRoom()
      requires Valid()
      reads this
    {
      HasStackRoom() && callp + 2 <= calls.Length
    }

    ghost predicate HasStackRoom()
      requires Valid()
      reads this
    {
      && sp + 8 <= stack.Length
      && forall id | 0 <= id < |clos| :: sp + ListLength(clos[id].args) + 8 <= stack.Length
    }

    constructor (stackSize: nat, callsSize: nat, clos: seq<M.Clos>, envs: seq<EnvFrame>, ptr: Value)
      requires 0 < stackSize
      ensures Valid() && fresh(stack) && fresh(calls)
      ensures stack.Length == stackSize && calls.Length == callsSize
      ensures View() == M.VM([], 0, [], 0, M.Interpreted, 0, ptr, 0, clos, envs, M.Running)
    {
      this.stack := new Value[stackSize](_ => Null);
      this.calls := new M.Frame[callsSize](_ => M.Frame(0, 0, 0, M.SavedIp(0)));
      this.clos, this.envs, this.ptr := clos, envs, ptr;
      sp, callp, argnum, closure, ip, env := 0, 0, 0, 0, 0, 0;
      runmode, running, failed := M.Interpreted, true, false;
    }

    // ---------- the stack and the frame protocol ----------

    method StackPush(v: Value)
      requires Valid() && sp + 1 < stack.Length
      modifies this`sp, this`argnum, stack
      ensures Valid() && sp == old(sp) + 1
      ensures running ==> View() == M.Push(old(View()), v)
    {
      stack[sp] := v;
      sp := sp + 1;
      argnum := argnum + 1;
    }

    method StackPop() returns (v: Value)
      requires Valid() && 0 < sp && 0 < argnum
      modifies this`sp, this`argnum
      ensures Valid() && sp == old(sp) - 1 && argnum == old(argnum) - 1 && v == old(stack[sp - 1])
    {
      argnum := argnum - 1;
      sp := sp - 1;
      v := stack[sp];
    }

    method PopTwo() returns (first: Value, second: Value)
      requires Valid() && 1 < sp && 1 < argnum
      modifies this`sp, this`argnum
      ensures Valid() && sp == old(sp) - 2 && argnum == old(argnum) - 2
      ensures first == stack[sp] && second == stack[sp + 1]
    {
      second := StackPop();
      first := StackPop();
    }

    method Error()
      requires Valid()
      modifies this`running, this`failed
      ensures Valid() && View().status.Failed?
    {
      running, failed := false, true;
    }

    method CallEval(p: Value)
      requires Valid() && callp < calls.Length && running
      modifies this`callp, this`argnum, this`ptr, calls
      ensures Valid() && callp == old(callp) + 1
      ensures View() == M.CallEval(old(View()), p)
    {
      calls[callp] := M.Frame(closure, sp, argnum, M.SavedPtr(ptr, env));
      callp := callp + 1;
      argnum := 0;
      ptr := p;
    }

    /** Continue in the mode the frame was saved in. */
    method Continue(saved: M.Saved)
      requires Valid() && running
      modifies this`runmode, this`ip, this`ptr, this`env
      ensures Valid()
      ensures View() ==
        match saved
        case SavedIp(i) => old(View()).(mode := M.Compiled, ip := i)
        case SavedPtr(p, e) => old(View()).(mode := M.Interpreted, ptr := p, env := e)
    {
      match saved
      case SavedIp(i) => runmode, ip := M.Compiled, i;
      case SavedPtr(p, e) => runmode, ptr, env := M.Interpreted, p, e;
    }

    /** The result may lie in the slot at `sp`, just written and not yet live: `k` counts it in. */
    method CallReturn(ghost k: nat)
      requires Valid() && running && k < stack.Length
      requires M.CallReturn(ViewTo(k)).status != M.Undefined
      modifies this
      ensures Valid() && stack == old(stack) && calls == old(calls)
      ensures View() == M.CallReturn(old(ViewTo(k)))
    {
      if callp > 0 {
        ghost var live, frames := stack[..k], calls[..callp];
        callp := callp - 1;
        var frame := calls[callp];
        sp := frame.sp + 1;
        closure := frame.closure;
        argnum := frame.argnum + 1;
        assert stack[..sp] == live[..sp] && calls[..callp] == frames[..callp];
        Continue(frame.saved);
      } else {
        Finish();
      }
    }

    /** No caller: the value in the first slot is the run's result. */
    method Finish()
      requires Valid() && running
      modifies this`running, this`sp
      ensures Valid() && View() == old(View()).(stack := [], status := M.Done(stack[0]))
    {
      running := false;
      sp := 0;
    }

    // ---------- application ----------

    /** Bind parameter i to the value i slots above `sp`; more or fewer arguments is an error. */
    method LoadLambdaArgs(count: nat, args: Value)
      requires Valid() && running && env < |envs| && envs[env].vars == map[]
      requires sp + ListLength(args) + 2 <= stack.Length && 0 < count && sp + count <= stack.Length
      modifies this`envs, this`running, this`failed
      ensures Valid()
      ensures if ListLength(args) + 1 == count then
                var bound := M.BindArgs(map[], args, stack[sp + 1..sp + count]);
                && envs == old(envs)[env := old(envs[env]).(vars := bound)]
                && running && failed == old(failed)
              else failed
    {
      hide M.BindArgs;
      var arg, i := args, 1;
      ghost var values := stack[sp + 1..sp + 1 + ListLength(args)];
      ghost var vars := envs[env].vars;
      assert values[0..] == values;
      while arg.Pair?
        invariant Valid() && running && env < |old(envs)| && i + ListLength(arg) == 1 + ListLength(args)
        invariant failed == old(failed)
        invariant envs == old(envs)[env := old(envs[env]).(vars := vars)]
        invariant M.BindArgs(vars, arg, values[i - 1..]) == M.BindArgs(map[], args, values)
        decreases arg
      {
        BindFirst(vars, arg, values, i - 1);
        envs := SetVar(envs, env, arg.car, stack[sp + i]);
        vars := vars[arg.car := values[i - 1]];
        i := i + 1;
        arg := arg.cdr;
      }
      BindNone(vars, arg, values[i - 1..]);
      if i != count { Error(); }
    }

    /** Count the call, and on the third compile; false when that failed. */
    method CountAndCompile(id: nat) returns (ok: bool)
      requires Valid() && running && id < |clos| && clos[id].env < |envs|
      requires M.CountCall(envs, clos[id]) != M.WarmUndefined
      modifies this`clos, this`running, this`failed
      ensures Valid() && ok == running
      ensures match M.CountCall(envs, old(clos[id]))
              case Warm(c) => ok && clos == old(clos)[id := c] && failed == old(failed)
              case _ => failed
    {
      var c := clos[id];
      var calls := c.numCalls + 1;
      clos := clos[id := c.(numCalls := calls)];
      ok := true;
      if calls >= 3 {
        var made, _ := CompilerState.CompileClosure(envs, c.env, c.args, c.definition);
        if made.Code? {
          clos := clos[id := clos[id].(code := made.code, closed := made.closed, compiled := true)];
        } else {
          Error();
          ok := false;
        }
      }
    }

    /** A fresh environment for the call, its arguments moved into it. */
    method TakeArguments(c: M.Clos)
      requires Valid() && running && 0 < argnum <= sp && sp + ListLength(c.args) + 8 <= stack.Length
      modifies this`envs, this`env, this`sp, this`argnum, this`running, this`failed
      ensures Valid() && sp == old(sp) - old(argnum) && argnum == 0
      ensures if ListLength(c.args) + 1 == old(argnum) then
                var args := stack[sp + 1..old(sp)];
                && env == |old(envs)| && envs == old(envs) + [EnvFrame(M.BindArgs(map[], c.args, args), Some(c.env))]
                && running && failed == old(failed)
              else failed
    {
      hide M.BindArgs;
      var called := argnum;
      envs := envs + [EnvFrame(map[], Some(c.env))];
      env := |envs| - 1;
      sp := sp - argnum;
      argnum := 0;
      LoadLambdaArgs(called, c.args);
    }

    /** The new environment, and the body to walk with return-last as its function. */
    method BeginBody(c: M.Clos)
      requires Valid() && running && 0 < argnum <= sp && sp + ListLength(c.args) + 8 <= stack.Length
      modifies this, stack
      ensures Valid() && stack == old(stack) && calls == old(calls)
      ensures var st := old(View()); var base := old(sp) - old(argnum);
        if ListLength(c.args) + 1 != st.argnum then failed
        else
          var frame := EnvFrame(M.BindArgs(map[], c.args, st.stack[base + 1..]), Some(c.env));
          View() == st.(envs := st.envs + [frame], env := |st.envs|, ptr := c.definition,
                        stack := st.stack[..base] + [Closure(M.RETURN_LAST)], argnum := 1)
    {
      hide M.BindArgs;
      ghost var live := stack[..sp];
      ptr := c.definition;
      TakeArguments(c);
      if !running { return; }
      assert stack[sp + 1..|live|] == live[sp + 1..];
      StackPush(Closure(M.RETURN_LAST));
      assert stack[..sp] == live[..sp - 1] + [Closure(M.RETURN_LAST)];
    }

    /** The called closure becomes the running one, in the tree walker, and its call is counted. */
    method StartCall(id: nat) returns (ok: bool)
      requires Valid() && running && id < |clos| && clos[id].env < |envs|
      requires M.CountCall(envs, clos[id]) != M.WarmUndefined
      modifies this`closure, this`runmode, this`clos, this`running, this`failed
      ensures Valid() && ok == running
      ensures match M.CountCall(envs, old(clos[id]))
              case Warm(c) =>
                ok && View() == old(View()).(closure := id, mode := M.Interpreted, clos := old(clos)[id := c])
              case _ => failed
    {
      hide M.CountCall;
      closure := id;
      runmode := M.Interpreted;
      ok := CountAndCompile(id);
    }

    /** `vm_call_apply` on a closure that is not compiled yet. */
    method EnterInterpreted(id: nat)
      requires Valid() && HasStackRoom() && running && id < |clos| && 0 < argnum <= sp
      requires M.EnterInterpreted(View(), id).status != M.Undefined
      modifies this, stack
      ensures Valid() && stack == old(stack) && calls == old(calls)
      ensures Agrees(View(), M.EnterInterpreted(old(View()), id))
    {
      hide M.EnterInterpreted, M.CountCall, M.BindArgs, HasRoom;
      var c := clos[id];
      ghost var st := View();
      EntersDefined(st, id);
      var ok := StartCall(id);
      if !ok { return; }
      Entering(st, id, View());
      BeginBody(c);
    }

    /** `vm_call_apply`. */
    method CallApply()
      requires Valid() && HasStackRoom() && running && M.CallApply(View()).status != M.Undefined
      modifies this, stack
      ensures Valid() && stack == old(stack) && calls == old(calls)
      ensures Agrees(View(), M.CallApply(old(View())))
    {
      hide M.EnterInterpreted;
      ghost var live := stack[..sp];
      var func := stack[sp - argnum];
      assert func == live[sp - argnum];
      if func.Closure? {
        if clos[func.id].compiled {
          closure, runmode, ip := func.id, M.Compiled, 0;
        } else {
          EnterInterpreted(func.id);
        }
      } else if func == Run(SetPtr) && argnum == 2 {
        SetPointer();
      } else {
        Error();
      }
    }

    /** `set-ptr`: its operand is what to walk next. */
    method SetPointer()
      requires Valid() && running && 1 < sp && argnum == 2
      modifies this`sp, this`argnum, this`ptr
      ensures Valid() && sp == old(sp) - 2
      ensures var st := old(View());
        View() == st.(ptr := st.stack[|st.stack| - 1], stack := st.stack[..|st.stack| - 2], argnum := 0)
    {
      ghost var live := stack[..sp];
      var _, p := PopTwo();
      ptr := p;
      assert stack[..sp] == live[..|live| - 2];
    }

    // ---------- the tree walker ----------

    method MakeClosure(args: Value, body: Value) returns (id: nat)
      requires Valid() && running
      modifies this`clos
      ensures Valid() && id == |old(clos)| && View() == M.NewClosure(old(View()), args, body)
    {
      id := |clos|;
      clos := clos + [M.Clos(body, args, env, false, 0, [], [])];
    }

    method HandleLambda(expr: Value)
      requires Valid() && HasRoom() && running && M.HandleLambda(View(), expr).status != M.Undefined
      modifies this, stack
      ensures Valid() && stack == old(stack) && calls == old(calls)
      ensures Agrees(View(), M.HandleLambda(old(View()), expr))
    {
      hide M.CallReturn;
      if (expr.car.Pair? || expr.car.Null?) && expr.cdr.Pair? {
        var id := MakeClosure(expr.car, expr.cdr);
        StackPush(Closure(id));
        CallReturn(sp);
      }
    }

    method HandleDefine(kind: RunType, expr: Value)
      requires Valid() && HasRoom() && running && expr.Pair?
      modifies this, stack
      ensures Valid() && stack == old(stack) && calls == old(calls)
      ensures View() == M.HandleDefine(old(View()), kind, expr)
    {
      StackPush(Closure(if kind == SetBang then M.INTERN_SET else M.INTERN_DEFINE));
      if expr.car.Sym? {
        StackPush(expr.car);
        ptr := expr.cdr;
      } else if expr.car.Pair? {
        var id := MakeClosure(expr.car.cdr, expr.cdr);
        StackPush(expr.car.car);
        StackPush(Closure(id));
        ptr := Null;
      }
    }

    /** The three arms are read one by one, after the frames for set-ptr and intern-if are made. */
    method HandleIf(expr: Value)
      requires Valid() && HasRoom() && running && M.HandleIf(View(), expr).status != M.Undefined
      modifies this, stack, calls
      ensures Valid() && stack == old(stack) && calls == old(calls)
      ensures Agrees(View(), M.HandleIf(old(View()), expr))
    {
      hide M.Push, M.CallEval;
      StackPush(Run(SetPtr));
      ptr := Null;
      CallEval(Null);
      StackPush(Closure(M.INTERN_IF));
      if !expr.cdr.Pair? { Error(); return; }
      StackPush(expr.cdr.car);
      if !expr.cdr.cdr.Pair? { Error(); return; }
      StackPush(expr.cdr.cdr.car);
      CallEval(expr.car);
    }

    method PushTwo(f: Value, v: Value)
      requires Valid() && sp + 2 < stack.Length && running
      modifies this`sp, this`argnum, stack
      ensures Valid() && sp == old(sp) + 2
      ensures View() == M.Push(M.Push(old(View()), f), v)
    {
      StackPush(f);
      StackPush(v);
    }

    method PushQuoted(v: Value)
      requires Valid() && HasRoom() && running
      modifies this, stack
      ensures Valid() && stack == old(stack) && calls == old(calls)
      ensures sp == old(sp) + 2 && callp == old(callp) && running
      ensures View() == M.Push(M.Push(old(View()), Closure(M.RETURN_LAST)), v).(ptr := Null)
    {
      PushTwo(Closure(M.RETURN_LAST), v);
      ptr := Null;
    }

    method HandleSpecialForm(kind: RunType, expr: Value)
      requires Valid() && HasRoom() && running && M.HandleSpecialForm(View(), kind, expr).status != M.Undefined
      modifies this, stack, calls
      ensures Valid() && stack == old(stack) && calls == old(calls)
      ensures Agrees(View(), M.HandleSpecialForm(old(View()), kind, expr))
    {
      hide M.HandleLambda, M.HandleIf;
      match kind
      case Lambda => HandleLambda(expr);
      case Define => HandleDefine(kind, expr);
      case SetBang => HandleDefine(kind, expr);
      case DefineSyntax => HandleDefine(kind, expr);
      case If => HandleIf(expr);
      case Begin => StackPush(Closure(M.RETURN_LAST)); ptr := expr;
      case Quote => PushQuoted(if expr.Pair? then expr.car else Null);
      case SyntaxRules => PushQuoted(Rules(expr.car, expr.cdr));
      case _ =>
    }

    /** A macro use. The expander leaves its own return-last and null on the stack. */
    method HandleMacro(rules: Value, form: Value)
      requires Valid() && HasRoom() && running && rules.Rules?
      requires M.HandleMacro(View(), rules, form).status != M.Undefined
      modifies this, stack, calls
      ensures Valid() && stack == old(stack) && calls == old(calls)
      ensures Agrees(View(), M.HandleMacro(old(View()), rules, form))
    {
      hide M.Push, M.CallEval, S.ExpandRules;
      PushQuoted(Null);
      var expanded := MacroExpander.ExpandSyntaxRules(rules.keywords, rules.patterns, form);
      PushTwo(Closure(M.RETURN_LAST), Null);
      if expanded.Expanded? {
        CallEval(expanded.value);
        StackPush(Closure(M.RETURN_LAST));
      } else {
        Error();
      }
    }

    /** `vm_step_interpreter`. */
    method StepInterpreter()
      requires Valid() && HasRoom() && running && M.StepInterpreted(View()).status != M.Undefined
      modifies this, stack, calls
      ensures Valid() && stack == old(stack) && calls == old(calls)
      ensures Agrees(View(), M.StepInterpreted(old(View())))
    {
      hide M.HandleSpecialForm, M.HandleMacro, M.CallApply, M.CallReturn;
      if ptr.Pair? {
        StepList();
      } else if ptr.Null? {
        CallApply();
      } else {
        StepAtom();
      }
    }

    /** The next element of the current list. */
    method StepList()
      requires Valid() && HasRoom() && running && ptr.Pair? && M.StepInterpreted(View()).status != M.Undefined
      modifies this, stack, calls
      ensures Valid() && stack == old(stack) && calls == old(calls)
      ensures Agrees(View(), M.StepInterpreted(old(View())))
    {
      hide M.HandleSpecialForm, M.HandleMacro, M.CallApply, M.CallReturn;
      var form, head := ptr, ptr.car;
      ptr := ptr.cdr;
      if head.Pair? {
        CallEval(head);
      } else if head.Sym? {
        var found := Lookup(envs, env, head);
        if found.None? {
          Error();
        } else {
          StepSymbol(form, found.value);
        }
      } else {
        StackPush(head);
      }
    }

    /** Only the first element of a list starts a special form or a macro use. */
    method StepSymbol(form: Value, v: Value)
      requires Valid() && HasRoom() && running && form.Pair? && ptr == form.cdr
      requires argnum == 0 && IsSpecialForm(v) ==> M.HandleSpecialForm(View(), v.kind, form.cdr).status != M.Undefined
      requires argnum == 0 && v.Rules? ==> M.HandleMacro(View(), v, form).status != M.Undefined
      modifies this, stack, calls
      ensures Valid() && stack == old(stack) && calls == old(calls)
      ensures Agrees(View(),
                if old(argnum) == 0 && IsSpecialForm(v) then M.HandleSpecialForm(old(View()), v.kind, form.cdr)
                else if old(argnum) == 0 && v.Rules? then M.HandleMacro(old(View()), v, form)
                else M.Push(old(View()), v))
    {
      hide M.HandleSpecialForm, M.HandleMacro;
      if argnum == 0 {
        if IsSpecialForm(v) {
          HandleSpecialForm(v.kind, form.cdr);
        } else if v.Rules? {
          HandleMacro(v, form);
        } else {
          StackPush(v);
        }
      } else {
        StackPush(v);
      }
    }

    /** An atom: its value goes to the slot at `sp`, and the activation returns. */
    method StepAtom()
      requires Valid() && HasRoom() && running && !ptr.Pair? && !ptr.Null?
      requires M.StepInterpreted(View()).status != M.Undefined
      modifies this, stack, calls
      ensures Valid() && stack == old(stack) && calls == old(calls)
      ensures Agrees(View(), M.StepInterpreted(old(View())))
    {
      hide M.CallReturn;
      var value := ptr;
      if ptr.Sym? {
        var found := Lookup(envs, env, ptr);
        if found.None? { Error(); return; }
        value := found.value;
      }
      ghost var live := stack[..sp];
      stack[sp] := value;
      assert stack[..sp + 1] == live + [value];
      CallReturn(sp + 1);
    }

    // ---------- threaded code ----------

    /** `vm_op_return_last`. */
    method OpReturnLast()
      requires Valid() && HasRoom() && running && M.OpReturnLast(View()).status != M.Undefined
      modifies this, stack
      ensures Valid() && stack == old(stack) && calls == old(calls)
      ensures Agrees(View(), M.OpReturnLast(old(View())))
    {
      hide M.CallReturn;
      ghost var live := stack[..sp];
      ghost var base := sp - argnum;
      var v := StackPop();
      stack[sp - argnum] := v;
      assert stack[..base + 1] == live[..base] + [v];
      CallReturn(base + 1);
    }

    method OpJumpIfFalse(target: nat)
      requires Valid() && running && M.OpJumpIfFalse(View(), target).status != M.Undefined
      modifies this
      ensures Valid() && stack == old(stack) && calls == old(calls)
      ensures View() == M.OpJumpIfFalse(old(View()), target)
    {
      ghost var live := stack[..sp];
      var v := StackPop();
      assert stack[..sp] == live[..sp] && live[sp] == v;
      ip := if v == Bool(false) then target else ip + 1;
    }

    method OpClosureRef(slot: nat)
      requires Valid() && HasRoom() && running && M.OpClosureRef(View(), slot).status != M.Undefined
      modifies this, stack
      ensures Valid() && stack == old(stack) && calls == old(calls)
      ensures View() == M.OpClosureRef(old(View()), slot)
    {
      var node := clos[closure].closed[slot];
      StackPush(envs[node.env].vars[node.key]);
      ip := ip + 1;
    }

    method OpStackRef(slot: nat)
      requires Valid() && HasRoom() && running && M.OpStackRef(View(), slot).status != M.Undefined
      modifies this, stack
      ensures Valid() && stack == old(stack) && calls == old(calls)
      ensures View() == M.OpStackRef(old(View()), slot)
    {
      var index := sp - argnum + slot;
      assert stack[..sp][index] == stack[index];
      StackPush(stack[index]);
      ip := ip + 1;
    }

    /** `vm_op_do_call`. */
    method OpDoCall(arg: nat)
      requires Valid() && HasRoom() && running && M.OpDoCall(View(), arg).status != M.Undefined
      modifies this, stack, calls
      ensures Valid() && stack == old(stack) && calls == old(calls)
      ensures Agrees(View(), M.OpDoCall(old(View()), arg))
    {
      hide M.CallApply;
      var start := sp - argnum + arg;
      calls[callp] := M.Frame(closure, start, argnum - (sp - start), M.SavedIp(ip + 1));
      callp := callp + 1;
      argnum := sp - start;
      assert calls[..callp] == old(calls[..callp]) + [calls[callp - 1]];
      CallApply();
    }

    /** The copy runs upwards, so that the overlapping ranges are moved intact. */
    method MoveOperands(start: nat, newStart: nat, count: nat)
      requires Valid() && start <= newStart && newStart + count == sp
      modifies stack
      ensures stack[..start + count] == old(stack[..start]) + old(stack[newStart..sp])
    {
      ghost var low, operands := stack[..start], stack[newStart..sp];
      var i := 0;
      while i < count
        invariant i <= count
        invariant forall k | 0 <= k < start :: stack[k] == low[k]
        invariant forall k | start <= k < start + i :: stack[k] == operands[k - start]
        invariant forall k | newStart + i <= k < sp :: stack[k] == operands[k - newStart]
      {
        stack[start + i] := stack[newStart + i];
        i := i + 1;
      }
    }

    /** `vm_op_do_tailcall`. */
    method OpDoTailCall(arg: nat)
      requires Valid() && HasRoom() && running && M.OpDoTailCall(View(), arg).status != M.Undefined
      modifies this, stack
      ensures Valid() && stack == old(stack) && calls == old(calls)
      ensures Agrees(View(), M.OpDoTailCall(old(View()), arg))
    {
      hide M.CallApply;
      ghost var live := stack[..sp];
      var start, newStart := sp - argnum, sp - argnum + arg;
      var count := sp - newStart;
      assert live[..start] == stack[..start] && live[newStart..] == stack[newStart..sp];
      MoveOperands(start, newStart, count);
      sp, argnum, ip := start + count, count, 0;
      CallApply();
    }

    // ---------- built-ins ----------

    /** The machine after a built-in that leaves `v` in its function's slot. */
    method Leave(v: Value, ghost base: nat, ghost live: seq<Value>)
      requires Valid() && HasRoom() && running && sp == base + 1 && argnum == 1
      requires base <= |live| && stack[..base] == live[..base]
      modifies this`sp, this`argnum, this`ip, stack
      ensures Valid() && sp == old(sp) && argnum == 1 && ip == old(ip) + 1
      ensures stack[..sp] == live[..base] + [v]
    {
      var _ := StackPop();
      assert stack[..base] == live[..base];
      StackPush(v);
      ip := ip + 1;
    }

    /** Pop `n` operands; `args` are the live values above slot `base`. */
    ghost predicate Popping(live: seq<Value>, base: nat, n: nat)
      requires Valid()
      reads this, stack
    {
      && base + 1 + n <= |live| && sp == base + 1 + n && argnum == 1 + n
      && stack[..sp] == live[..sp]
    }

    method PopInt(ghost live: seq<Value>, ghost base: nat, ghost n: nat) returns (word: nat)
      requires Valid() && running && n > 0 && Popping(live, base, n) && M.AllInts(live[base + 1..])
      modifies this`sp, this`argnum
      ensures Valid() && Popping(live, base, n - 1)
      ensures live[base + n].Int? && word == T.TagInteger(live[base + n].n)
    {
      assert stack[..sp][sp - 1] == live[base + n];
      assert live[base + 1..][n - 1] == live[base + n];
      var v := StackPop();
      assert stack[..sp] == live[..sp];
      word := T.TagInteger(v.n);
    }

    /** The loop of `vm_op_add`: words are added as they are, since their tag bits are clear. */
    method AddWords(ghost live: seq<Value>, ghost base: nat) returns (sum: nat)
      requires Valid() && running && 0 < argnum && Popping(live, base, argnum - 1) && |live| == sp
      requires M.AllInts(live[base + 1..])
      modifies this`sp, this`argnum
      ensures Valid() && Popping(live, base, 0)
      ensures sum == T.TagInteger(M.Sum(live[base + 1..]))
    {
      hide T.TagInteger, M.Sum;
      EmptySum();
      T.TagIsPayload(0);
      sum := 0;
      var n := argnum - 1;
      assert live[base + 1 + n..] == [];
      while n > 0
        invariant n >= 0 && Valid() && running && Popping(live, base, n)
        invariant sum == T.TagInteger(M.Sum(live[base + 1 + n..]))
      {
        ghost var rest := live[base + 1 + n..];
        var word := PopInt(live, base, n);
        assert live[base + n..] == [live[base + n]] + rest;
        SumGrows(live[base + n], rest);
        T.AddTagged(M.Sum(rest), live[base + n].n);
        sum := (sum + word) % T.WORD;
        n := n - 1;
      }
    }

    method OpAdd()
      requires Valid() && HasRoom() && running && M.OpPrim(View(), Add).status != M.Undefined
      modifies this, stack
      ensures Valid() && stack == old(stack) && calls == old(calls)
      ensures View() == M.OpPrim(old(View()), Add)
    {
      ghost var live := stack[..sp];
      ghost var base := sp - argnum;
      var sum := AddWords(live, base);
      T.TagIsPayload(M.Sum(live[base + 1..]));
      Leave(Int(T.GetInteger(sum)), base, live);
    }

    /** The loop of `vm_op_sub`, from the first argument's word. */
    method SubtractWords(ghost live: seq<Value>, ghost base: nat) returns (sum: nat)
      requires Valid() && running && 1 < argnum && Popping(live, base, argnum - 1) && |live| == sp
      requires M.AllInts(live[base + 1..])
      modifies this`sp, this`argnum
      ensures Valid() && Popping(live, base, 1)
      ensures var args := live[base + 1..]; sum == T.TagInteger(args[0].n - M.Sum(args[1..]))
      ensures T.GetInteger(sum) == (live[base + 1].n - M.Sum(live[base + 1..][1..])) % FIXNUM_LIMIT
    {
      hide T.TagInteger, T.GetInteger, M.Sum;
      EmptySum();
      ghost var args := live[base + 1..];
      assert stack[..sp][sp - argnum + 1] == args[0];
      var first := stack[sp - argnum + 1];
      sum := T.TagInteger(first.n);
      var n := argnum - 2;
      assert args[1 + n..] == [];
      while n > 0
        invariant n >= 0 && Valid() && running && Popping(live, base, n + 1) && n + 1 <= |args|
        invariant sum == T.TagInteger(args[0].n - M.Sum(args[1 + n..]))
      {
        ghost var rest := args[1 + n..];
        var word := PopInt(live, base, n + 1);
        assert args[n..] == [live[base + n + 1]] + rest;
        SumGrows(live[base + n + 1], rest);
        T.AddTagged(args[0].n - M.Sum(rest), live[base + n + 1].n);
        sum := (sum - word) % T.WORD;
        n := n - 1;
      }
      T.TagIsPayload(args[0].n - M.Sum(args[1..]));
    }

    method OpSub()
      requires Valid() && HasRoom() && running && M.OpPrim(View(), Sub).status != M.Undefined
      modifies this, stack
      ensures Valid() && stack == old(stack) && calls == old(calls)
      ensures View() == M.OpPrim(old(View()), Sub)
    {
      hide M.PrimOf, M.Sum, T.TagInteger, T.GetInteger;
      ghost var live := stack[..sp];
      ghost var base := sp - argnum;
      SubOf(live[base + 1..]);
      var sum := SubtractWords(live, base);
      var _ := StackPop();
      assert stack[..base] == live[..base];
      Leave(Int(T.GetInteger(sum)), base, live);
    }

    /** The loop of `vm_op_mul`, on untagged payloads, modulo the word. */
    method MultiplyWords(ghost live: seq<Value>, ghost base: nat) returns (product: nat)
      requires Valid() && running && 0 < argnum && Popping(live, base, argnum - 1) && |live| == sp
      requires M.AllInts(live[base + 1..])
      modifies this`sp, this`argnum
      ensures Valid() && Popping(live, base, 0)
      ensures product == M.Product(live[base + 1..]) % T.WORD
    {
      hide M.Product;
      EmptyProduct();
      product := 1;
      var n := argnum - 1;
      assert live[base + 1 + n..] == [];
      while n > 0
        invariant n >= 0 && Valid() && running && Popping(live, base, n)
        invariant M.Product(live[base + 1 + n..]) >= 0
        invariant product == M.Product(live[base + 1 + n..]) % T.WORD
      {
        ghost var rest := live[base + 1 + n..];
        var word := PopInt(live, base, n);
        assert live[base + n..] == [live[base + n]] + rest;
        ProductGrows(live[base + n], rest);
        product := (product * T.GetInteger(word)) % T.WORD;
        n := n - 1;
      }
    }

    method OpMul()
      requires Valid() && HasRoom() && running && M.OpPrim(View(), Mul).status != M.Undefined
      modifies this, stack
      ensures Valid() && stack == old(stack) && calls == old(calls)
      ensures View() == M.OpPrim(old(View()), Mul)
    {
      ghost var live := stack[..sp];
      ghost var base := sp - argnum;
      var product := MultiplyWords(live, base);
      T.TagIsPayload(product);
      T.PayloadOfWord(M.Product(live[base + 1..]));
      Leave(Int(T.GetInteger(T.TagInteger(product))), base, live);
    }

    /** Divide the first argument's word by every other, the last first; not ok on a zero. */
    method DivideWords(ghost live: seq<Value>, ghost base: nat) returns (word: nat, ok: bool)
      requires Valid() && running && 1 < argnum && Popping(live, base, argnum - 1) && |live| == sp
      requires M.AllInts(live[base + 1..])
      modifies this`sp, this`argnum
      ensures Valid()
      ensures var args := live[base + 1..];
        match M.Divided(4 * args[0].n, args[1..])
        case None => !ok
        case Some(w) => ok && word == w && Popping(live, base, 1)
    {
      hide M.Divided, T.TagInteger;
      ghost var args := live[base + 1..];
      assert stack[..sp][sp - argnum + 1] == args[0];
      var first := stack[sp - argnum + 1];
      FixnumWord(first.n);
      word := T.TagInteger(first.n);
      ok := true;
      var n := argnum - 2;
      assert args[1..1 + n] == args[1..];
      while n > 0
        invariant n >= 0 && ok && Valid() && running && Popping(live, base, n + 1) && n + 1 <= |args|
        invariant M.Divided(4 * args[0].n, args[1..]) == M.Divided(word, args[1..1 + n])
      {
        var divisor := PopInt(live, base, n + 1);
        DividedTurn(word, args, n);
        assert args[n] == live[base + n + 1];
        if divisor == 0 { return word, false; }
        word := word / divisor;
        n := n - 1;
      }
      DividedStep(word, args[1..1 + n]);
    }

    method OpDiv()
      requires Valid() && HasRoom() && running && M.OpPrim(View(), Div).status != M.Undefined
      modifies this, stack
      ensures Valid() && stack == old(stack) && calls == old(calls)
      ensures Agrees(View(), M.OpPrim(old(View()), Div))
    {
      hide M.PrimOf, M.Divided, T.TagInteger, T.GetInteger;
      ghost var live := stack[..sp];
      ghost var base := sp - argnum;
      DivOf(live[base + 1..]);
      var word, ok := DivideWords(live, base);
      if !ok { Error(); return; }
      var _ := StackPop();
      assert stack[..base] == live[..base];
      T.TagIsPayload(word);
      Leave(Int(T.GetInteger(T.TagInteger(word))), base, live);
    }

    /** The built-ins of two operands. */
    method OpBinary(op: Primitive)
      requires op in {Less, Greater, Equal, Cons}
      requires Valid() && HasRoom() && running && M.OpPrim(View(), op).status != M.Undefined
      modifies this, stack
      ensures Valid() && stack == old(stack) && calls == old(calls)
      ensures Agrees(View(), M.OpPrim(old(View()), op))
    {
      hide M.PrimOf;
      ghost var live := stack[..sp];
      ghost var base := sp - argnum;
      if argnum != 3 {
        WrongCount(op, live[base + 1..]);
        Error();
        return;
      }
      TwoOperands(live, base);
      var first, second := PopTwo();
      assert stack[..base] == live[..base];
      Leave(BinaryResult(op, first, second), base, live);
    }

    /** The built-ins of one operand; the tests leave a call with another count untouched. */
    method OpUnary(op: Primitive)
      requires op in {IsNull, IsPair, Car, Cdr}
      requires Valid() && HasRoom() && running && M.OpPrim(View(), op).status != M.Undefined
      modifies this, stack
      ensures Valid() && stack == old(stack) && calls == old(calls)
      ensures Agrees(View(), M.OpPrim(old(View()), op))
    {
      hide M.PrimOf;
      ghost var live := stack[..sp];
      ghost var base := sp - argnum;
      if argnum != 2 {
        NotOne(op, live[base + 1..]);
        if op == IsNull || op == IsPair { ip := ip + 1; } else { Error(); }
        return;
      }
      assert live[base + 1..] == [live[base + 1]];
      var v := StackPop();
      assert stack[..base] == live[..base];
      LeaveUnary(op, v, base, live);
    }

    /** The result of an operation on one operand, or its error. */
    method LeaveUnary(op: Primitive, v: Value, ghost base: nat, ghost live: seq<Value>)
      requires op in {IsNull, IsPair, Car, Cdr}
      requires Valid() && HasRoom() && running && sp == base + 1 && argnum == 1
      requires base <= |live| && stack[..base] == live[..base]
      modifies this, stack
      ensures Valid() && stack == old(stack) && calls == old(calls)
      ensures if M.PrimOf(op, [v]).PrimError? then failed
              else
                && M.PrimOf(op, [v]).Result?
                && View() == M.Next(old(View())).(stack := live[..base] + [M.PrimOf(op, [v]).value])
    {
      hide M.PrimOf;
      OnOne(op, v);
      if op == IsNull {
        Leave(Bool(v.Null?), base, live);
      } else if op == IsPair {
        Leave(Bool(v.Pair?), base, live);
      } else if !v.Pair? {
        Error();
      } else {
        Leave(if op == Car then v.car else v.cdr, base, live);
      }
    }

    method OpPrim(op: Primitive)
      requires Valid() && HasRoom() && running && M.OpPrim(View(), op).status != M.Undefined
      modifies this, stack
      ensures Valid() && stack == old(stack) && calls == old(calls)
      ensures Agrees(View(), M.OpPrim(old(View()), op))
    {
      hide M.OpPrim;
      match op
      case Add => OpAdd();
      case Sub => OpSub();
      case Mul => OpMul();
      case Div => OpDiv();
      case Less => OpBinary(op);
      case Greater => OpBinary(op);
      case Equal => OpBinary(op);
      case Cons => OpBinary(op);
      case _ => OpUnary(op);
    }

    /** Bind in the current environment, or overwrite the innermost binding. */
    method Bind(sym: Value, datum: Value, recurse: bool)
      requires Valid() && env < |envs|
      modifies this`envs, this`ip
      ensures Valid() && View() == M.Next(old(View())).(
        envs := if recurse then SetVarRecurse(old(envs), env, sym, datum) else SetVar(old(envs), env, sym, datum))
    {
      envs := if recurse then SetVarRecurse(envs, env, sym, datum) else SetVar(envs, env, sym, datum);
      ip := ip + 1;
    }

    /** `vm_op_intern_define`, and `vm_op_intern_set` when `recurse`. */
    method OpInternSet(recurse: bool)
      requires Valid() && running && M.OpInternSet(View(), recurse).status != M.Undefined
      modifies this
      ensures Valid() && stack == old(stack) && calls == old(calls)
      ensures Agrees(View(), M.OpInternSet(old(View()), recurse))
    {
      if argnum != 3 { Error(); return; }
      ghost var live := stack[..sp];
      var sym, datum := PopTwo();
      assert live[|live| - 1] == datum && live[|live| - 2] == sym;
      assert stack[..sp] == live[..|live| - 2];
      if !sym.Sym? { Error(); return; }
      Bind(sym, datum, recurse);
    }

    method OpInternIf()
      requires Valid() && HasRoom() && running && M.OpInternIf(View()).status != M.Undefined
      modifies this, stack
      ensures Valid() && stack == old(stack) && calls == old(calls)
      ensures View() == M.OpInternIf(old(View()))
    {
      if argnum != 4 { ip := ip + 1; return; }
      ghost var live := stack[..sp];
      var falsePath, test := PopTwo();
      var truePath := StackPop();
      assert live[|live| - 1] == test && live[|live| - 2] == falsePath && live[|live| - 3] == truePath;
      ghost var base := |live| - 4;
      assert stack[..base] == live[..base];
      Leave(if test == Bool(false) then falsePath else truePath, base, live);
    }

    // ---------- the run loop ----------

    method Execute(instr: Instr)
      requires Valid() && HasRoom() && running && M.Execute(View(), instr).status != M.Undefined
      modifies this, stack, calls
      ensures Valid() && stack == old(stack) && calls == old(calls)
      ensures Agrees(View(), M.Execute(old(View()), instr))
    {
      hide M.OpDoCall, M.OpDoTailCall, M.OpJumpIfFalse, M.OpClosureRef, M.OpStackRef, M.OpReturnLast, M.CallReturn,
        M.OpPrim, M.OpInternSet, M.OpInternIf;
      match instr
      case DoCall(arg) => OpDoCall(arg);
      case DoTailCall(arg) => OpDoTailCall(arg);
      case JumpIfFalse(target) => OpJumpIfFalse(target);
      case Jump(target) => ip := target;
      case PushConst(v) => StackPush(v); ip := ip + 1;
      case ClosureRef(slot) => OpClosureRef(slot);
      case StackRef(slot) => OpStackRef(slot);
      case ReturnLast => OpReturnLast();
      case Return => CallReturn(sp);
      case Prim(op) => OpPrim(op);
      case InternDefine => OpInternSet(false);
      case InternSet => OpInternSet(true);
      case InternIf => OpInternIf();
    }

    /** One turn of `vm_run`. */
    method Step()
      requires Valid() && HasRoom() && running && M.Step(View()).status != M.Undefined
      modifies this, stack, calls
      ensures Valid() && stack == old(stack) && calls == old(calls)
      ensures Agrees(View(), M.Step(old(View())))
    {
      hide M.Execute, M.StepInterpreted;
      if runmode == M.Compiled {
        Execute(clos[closure].code[ip]);
      } else {
        StepInterpreter();
      }
    }

    /** `vm_run`, for at most `n` turns: the machine does exactly what the step function says, as long as
        the stacks have room and no step is undefined. */
    method RunFor(n: nat)
      requires Valid() && running && Clear(View(), n, stack.Length, calls.Length)
      modifies this, stack, calls
      ensures Valid()
      ensures Agrees(View(), F.After(old(View()), n))
    {
      hide M.Step;
      ghost var start := View();
      var left: nat := n;
      while running && left > 0
        invariant left <= n && Valid() && stack == old(stack) && calls == old(calls)
        invariant running ==> F.After(View(), left) == F.After(start, n)
        invariant running ==> Clear(View(), left, stack.Length, calls.Length)
        invariant !running ==> Agrees(View(), F.After(start, n))
      {
        ghost var before := View();
        Step();
        left := left - 1;
        if !running { F.Halted(M.Step(before), left); }
      }
    }
  }
}
