/** What environments mean: a stack of maps, the innermost first. */
module EnvStack {
  import opened EnvStore
  import opened Values

  type Stack<K> = seq<map<K, Value>>

  /** The innermost frame from `from` on that binds `key`; the height of the stack if none does. */
  function Innermost<K(==)>(stack: Stack<K>, from: nat, key: K): (i: nat)
    requires from <= |stack|
    ensures from <= i <= |stack| && (i < |stack| ==> key in stack[i])
    ensures forall j | from <= j < i :: key !in stack[j]
    decreases |stack| - from
  {
    if from == |stack| || key in stack[from] then from else Innermost(stack, from + 1, key)
  }

  datatype Op<K> =
    | Set(frame: nat, key: K, value: Value)
    | SetRecurse(frame: nat, key: K, value: Value)

  /** `env_set` binds in its frame; `env_set_recurse` overwrites the innermost binding from its frame on, or binds in
      its frame. */
  function Target<K(==)>(stack: Stack<K>, op: Op<K>): (i: nat)
    requires op.frame < |stack|
    ensures i < |stack|
  {
    if op.Set? then op.frame
    else
      var i := Innermost(stack, op.frame, op.key);
      if i < |stack| then i else op.frame
  }

  function Bind<K(==)>(stack: Stack<K>, i: nat, key: K, value: Value): Stack<K>
    requires i < |stack|
  {
    stack[i := stack[i][key := value]]
  }

  function ApplyOp<K(==)>(stack: Stack<K>, op: Op<K>): Stack<K>
    requires op.frame < |stack|
  {
    var i := Target(stack, op);
    Bind(stack, i, op.key, op.value)
  }

  predicate InRange<K(==)>(ops: seq<Op<K>>, n: nat) { forall k | 0 <= k < |ops| :: ops[k].frame < n }

  function RunOps<K(==)>(stack: Stack<K>, ops: seq<Op<K>>): (r: Stack<K>)
    requires InRange(ops, |stack|)
    ensures |r| == |stack|
    decreases |ops|
  {
    if ops == [] then stack else RunOps(ApplyOp(stack, ops[0]), ops[1..])
  }

  /** An operation that binds `key` nearer than frame `d`. */
  predicate AddsNearer<K(==)>(op: Op<K>, key: K, d: nat) { op.Set? && op.key == key && op.frame < d }

  /** The last value written to the binding of `key` in frame `d`. */
  function Latest<K(==)>(value: Value, ops: seq<Op<K>>, key: K, d: nat): Value
    decreases |ops|
  {
    if ops == [] then value
    else
      var op := ops[0];
      var written := op.key == key && if op.Set? then op.frame == d else op.frame <= d;
      Latest(if written then op.value else value, ops[1..], key, d)
  }

  lemma OneOp<K>(stack: Stack<K>, op: Op<K>, key: K, d: nat)
    requires op.frame < |stack| && Innermost(stack, 0, key) == d < |stack|
    ensures AddsNearer(op, key, d) ==> Innermost(ApplyOp(stack, op), 0, key) < d
    ensures !AddsNearer(op, key, d) ==>
      && Innermost(ApplyOp(stack, op), 0, key) == d
      && ApplyOp(stack, op)[d][key] ==
           if op.key == key && (if op.Set? then op.frame == d else op.frame <= d) then op.value else stack[d][key]
  {
    var after := ApplyOp(stack, op);
    if AddsNearer(op, key, d) {
      assert key in after[op.frame];
    } else {
      assert key in after[d] && forall j | 0 <= j < d :: key !in after[j];
    }
  }

  lemma {:induction false} NearerStaysNearer<K>(stack: Stack<K>, ops: seq<Op<K>>, key: K, d: nat)
    requires InRange(ops, |stack|) && Innermost(stack, 0, key) < d <= |stack|
    ensures Innermost(RunOps(stack, ops), 0, key) < d
    decreases |ops|
  {
    if ops != [] {
      OneOp(stack, ops[0], key, Innermost(stack, 0, key));
      NearerStaysNearer(ApplyOp(stack, ops[0]), ops[1..], key, d);
    }
  }

  /** A captured binding stays the one that lookup finds if and only if no operation adds a nearer one; and then
      it holds the last value written to it. */
  lemma {:induction false} CapturedStaysLive<K>(stack: Stack<K>, ops: seq<Op<K>>, key: K)
    requires InRange(ops, |stack|) && Innermost(stack, 0, key) < |stack|
    ensures var d := Innermost(stack, 0, key);
      && (Innermost(RunOps(stack, ops), 0, key) == d <==> forall k | 0 <= k < |ops| :: !AddsNearer(ops[k], key, d))
      && (Innermost(RunOps(stack, ops), 0, key) == d ==>
            RunOps(stack, ops)[d][key] == Latest(stack[d][key], ops, key, d))
    decreases |ops|
  {
    if ops != [] {
      var d := Innermost(stack, 0, key);
      OneOp(stack, ops[0], key, d);
      if AddsNearer(ops[0], key, d) {
        NearerStaysNearer(ApplyOp(stack, ops[0]), ops[1..], key, d);
      } else {
        CapturedStaysLive(ApplyOp(stack, ops[0]), ops[1..], key);
        assert forall k | 1 <= k < |ops| :: ops[k] == ops[1..][k - 1];
      }
    }
  }

  // ---------- the chains of a store ----------

  /** The frames of a store from `env` outward. */
  function Frames(envs: seq<EnvFrame>, env: nat): (stack: Stack<Value>)
    ensures env < |envs| ==> |stack| > 0
    decreases env
  {
    if env >= |envs| then []
    else
      [envs[env].vars] +
      if envs[env].last.Some? && envs[env].last.value < env then Frames(envs, envs[env].last.value) else []
  }

  /** Searching the store and searching the stack agree. */
  lemma {:induction false} StoreFinds(envs: seq<EnvFrame>, env: nat, key: Value)
    ensures var stack := Frames(envs, env); var i := Innermost(stack, 0, key);
      Lookup(envs, env, key) == if i < |stack| then Some(stack[i][key]) else None
    decreases env
  {
    if env < |envs| && key !in envs[env].vars && envs[env].last.Some? && envs[env].last.value < env {
      var outer := Frames(envs, envs[env].last.value);
      StoreFinds(envs, envs[env].last.value, key);
      InnermostShifts(envs[env].vars, outer, 0, key);
    }
  }

  lemma {:induction false} InnermostShifts(inner: map<Value, Value>, outer: Stack<Value>, from: nat, key: Value)
    requires from <= |outer|
    ensures Innermost([inner] + outer, from + 1, key) == Innermost(outer, from, key) + 1
    decreases |outer| - from
  {
    if from < |outer| && key !in outer[from] { InnermostShifts(inner, outer, from + 1, key); }
  }

  /** A frame outside the chain's reach can change freely. */
  lemma {:induction false} FramesBelow(envs: seq<EnvFrame>, more: seq<EnvFrame>, env: nat)
    requires |envs| == |more| && forall i | 0 <= i <= env && i < |envs| :: envs[i] == more[i]
    ensures Frames(envs, env) == Frames(more, env)
    decreases env
  {
    if env < |envs| && envs[env].last.Some? && envs[env].last.value < env {
      FramesBelow(envs, more, envs[env].last.value);
    }
  }

  /** `SetVar` is `env_set` on the stack, and `SetVarRecurse` is `env_set_recurse`. */
  lemma StoreSets(envs: seq<EnvFrame>, env: nat, key: Value, value: Value)
    requires env < |envs|
    ensures Frames(SetVar(envs, env, key, value), env) == ApplyOp(Frames(envs, env), Set(0, key, value))
    ensures Frames(SetVarRecurse(envs, env, key, value), env) == ApplyOp(Frames(envs, env), SetRecurse(0, key, value))
  {
    SetHere(envs, env, key, value);
    StoreFinds(envs, env, key);
    if FindNode(envs, env, key).Some? { SetFound(envs, env, key, value); }
  }

  lemma SetHere(envs: seq<EnvFrame>, env: nat, key: Value, value: Value)
    requires env < |envs|
    ensures Frames(SetVar(envs, env, key, value), env) == Bind(Frames(envs, env), 0, key, value)
  {
    var more := SetVar(envs, env, key, value);
    assert more[env] == envs[env].(vars := envs[env].vars[key := value]);
    if envs[env].last.Some? && envs[env].last.value < env {
      var last := envs[env].last.value;
      FramesBelow(envs, more, last);
      HeadBinds(envs[env].vars, Frames(envs, last), key, value);
    }
  }

  lemma HeadBinds(inner: map<Value, Value>, outer: Stack<Value>, key: Value, value: Value)
    ensures Bind([inner] + outer, 0, key, value) == [inner[key := value]] + outer
  {
  }

  lemma {:induction false} SetFound(envs: seq<EnvFrame>, env: nat, key: Value, value: Value)
    requires env < |envs| && FindNode(envs, env, key).Some?
    ensures var stack := Frames(envs, env); var i := Innermost(stack, 0, key);
      && i < |stack|
      && Frames(SetVar(envs, FindNode(envs, env, key).value.env, key, value), env) == Bind(stack, i, key, value)
    decreases env
  {
    if key in envs[env].vars {
      SetHere(envs, env, key, value);
    } else {
      var last := envs[env].last.value;
      SetFound(envs, last, key, value);
      InnermostShifts(envs[env].vars, Frames(envs, last), 0, key);
      var i := Innermost(Frames(envs, last), 0, key);
      BindShifts(envs[env].vars, Frames(envs, last), i, key, value);
    }
  }

  lemma BindShifts(inner: map<Value, Value>, outer: Stack<Value>, i: nat, key: Value, value: Value)
    requires i < |outer|
    ensures Bind([inner] + outer, i + 1, key, value) == [inner] + Bind(outer, i, key, value)
  {
  }
}
