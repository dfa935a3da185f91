/** Environments as chains of frames, addressed by number. */
module EnvStore {
  import opened Values

  /** `last` is the enclosing environment. A frame is created after the one it extends. */
  datatype EnvFrame = EnvFrame(vars: map<Value, Value>, last: Option<nat>)

  /** The identity of an environment node: a frame holds at most one node for a key. */
  datatype NodeRef = NodeRef(env: nat, key: Value)

  datatype Binding = Binding(node: NodeRef, value: Value)

  /** What a whole chain binds, each symbol with the node found for it. */
  type Bindings = map<Value, Binding>

  /** `env_find_recurse`: the innermost node for `key`. */
  function FindNode(envs: seq<EnvFrame>, env: nat, key: Value): (r: Option<NodeRef>)
    ensures r.Some? ==> r.value.key == key && r.value.env <= env
    ensures r.Some? ==> r.value.env < |envs| && key in envs[r.value.env].vars
    decreases env
  {
    if env >= |envs| then None
    else if key in envs[env].vars then Some(NodeRef(env, key))
    else if envs[env].last.Some? && envs[env].last.value < env then FindNode(envs, envs[env].last.value, key)
    else None
  }

  function Lookup(envs: seq<EnvFrame>, env: nat, key: Value): Option<Value> {
    var node := FindNode(envs, env, key);
    if node.Some? then Some(envs[node.value.env].vars[key]) else None
  }

  /** `env_set`: bind in this frame only. */
  function SetVar(envs: seq<EnvFrame>, env: nat, key: Value, value: Value): seq<EnvFrame>
    requires env < |envs|
  {
    envs[env := envs[env].(vars := envs[env].vars[key := value])]
  }

  /** `env_set_recurse`: overwrite the innermost binding, or bind in this frame. */
  function SetVarRecurse(envs: seq<EnvFrame>, env: nat, key: Value, value: Value): seq<EnvFrame>
    requires env < |envs|
  {
    var node := FindNode(envs, env, key);
    SetVar(envs, if node.Some? then node.value.env else env, key, value)
  }

  /** The chain of `env` as one map: inner frames override outer ones. */
  function Flatten(envs: seq<EnvFrame>, env: nat): Bindings
    decreases env
  {
    if env >= |envs| then map[]
    else
      var outer :=
        if envs[env].last.Some? && envs[env].last.value < env then Flatten(envs, envs[env].last.value) else map[];
      outer + (map key | key in envs[env].vars :: Binding(NodeRef(env, key), envs[env].vars[key]))
  }

  /** Searching the chain and looking in the flattened map agree, on the node and on the value. */
  lemma {:induction false} FlattenIsFind(envs: seq<EnvFrame>, env: nat, key: Value)
    ensures FindNode(envs, env, key).Some? <==> key in Flatten(envs, env)
    ensures key in Flatten(envs, env) ==>
              && Flatten(envs, env)[key].node == FindNode(envs, env, key).value
              && Lookup(envs, env, key) == Some(Flatten(envs, env)[key].value)
    decreases env
  {
    if env < |envs| && key !in envs[env].vars && envs[env].last.Some? && envs[env].last.value < env {
      FlattenIsFind(envs, envs[env].last.value, key);
    }
  }

  ghost predicate Extends(envs: seq<EnvFrame>, more: seq<EnvFrame>) {
    |envs| <= |more| && forall i | 0 <= i < |envs| :: more[i] == envs[i]
  }

  /** Frames created later do not change what an existing environment binds. */
  lemma {:induction false} FlattenExtends(envs: seq<EnvFrame>, more: seq<EnvFrame>, env: nat)
    requires Extends(envs, more) && env < |envs|
    ensures Flatten(more, env) == Flatten(envs, env)
    decreases env
  {
    if envs[env].last.Some? && envs[env].last.value < env {
      FlattenExtends(envs, more, envs[env].last.value);
    }
  }
}
