/** Environments as linked objects: an unbalanced search tree for each frame, a chain of frames. */
module EnvTree {
  import opened EnvStack
  import opened Values

  /** A 64-bit word, unsigned. Keys are words: interned symbols are compared by address. */
  newtype Word = w: int | 0 <= w < 0x1_0000_0000_0000_0000

  class EnvNode {
    var key: Word
    var value: Value
    var left: EnvNode?
    var right: EnvNode?

    /** `calloc`. */
    constructor ()
      ensures key == 0 && value == Int(0) && left == null && right == null
    {
      key, value, left, right := 0, Int(0), null, null;
    }
  }

  // ---------- the shape of a tree ----------

  datatype Tree = Leaf | Branch(node: EnvNode, key: Word, left: Tree, right: Tree)

  ghost function Nodes(t: Tree): set<EnvNode> {
    if t.Leaf? then {} else {t.node} + Nodes(t.left) + Nodes(t.right)
  }

  ghost function Keys(t: Tree): set<Word> {
    if t.Leaf? then {} else {t.key} + Keys(t.left) + Keys(t.right)
  }

  ghost function Root(t: Tree): EnvNode? { if t.Leaf? then null else t.node }

  ghost predicate Ordered(t: Tree) {
    t.Branch? ==>
      && Ordered(t.left) && Ordered(t.right)
      && (forall k | k in Keys(t.left) :: k < t.key) && (forall k | k in Keys(t.right) :: t.key < k)
  }

  ghost predicate Distinct(t: Tree) {
    t.Branch? ==>
      && Distinct(t.left) && Distinct(t.right)
      && t.node !in Nodes(t.left) && t.node !in Nodes(t.right) && Nodes(t.left) !! Nodes(t.right)
  }

  datatype Links = Links(key: Word, left: EnvNode?, right: EnvNode?)

  /** What the fields of a node must be for the objects to hang together as the tree says. */
  ghost function Fields(t: Tree, n: EnvNode): Links
    requires n in Nodes(t)
  {
    if n == t.node then Links(t.key, Root(t.left), Root(t.right))
    else if n in Nodes(t.left) then Fields(t.left, n)
    else Fields(t.right, n)
  }

  ghost predicate Shaped(t: Tree)
    reads Nodes(t)
  {
    forall n | n in Nodes(t) :: Links(n.key, n.left, n.right) == Fields(t, n)
  }

  /** The side of a branch a search goes on in. */
  ghost function Toward(t: Tree, key: Word): Tree
    requires t.Branch?
  {
    if key < t.key then t.left else t.right
  }

  /** The node a search ends at. */
  ghost function Search(t: Tree, key: Word): (r: EnvNode?)
    ensures r != null ==> r in Nodes(t)
  {
    if t.Leaf? then null else if key == t.key then t.node else Search(Toward(t, key), key)
  }

  /** The last node on the way to where `key` would be. */
  ghost function LastOnWay(t: Tree, key: Word): EnvNode
    requires t.Branch?
  {
    if Toward(t, key).Leaf? then t.node else LastOnWay(Toward(t, key), key)
  }

  ghost function Insert(t: Tree, key: Word, m: EnvNode): Tree {
    match t
    case Leaf => Branch(m, key, Leaf, Leaf)
    case Branch(n, k, left, right) =>
      if key < k then Branch(n, k, Insert(left, key, m), right)
      else Branch(n, k, left, Insert(right, key, m))
  }

  /** A search finds a key if and only if the tree has it. */
  lemma {:induction false} SearchFinds(t: Tree, key: Word)
    requires Ordered(t) && Distinct(t)
    ensures Search(t, key) != null <==> key in Keys(t)
    ensures Search(t, key) != null ==> Search(t, key) in Nodes(t) && Fields(t, Search(t, key)).key == key
  {
    if t.Branch? {
      SearchFinds(t.left, key);
      SearchFinds(t.right, key);
    }
  }

  lemma {:induction false} InsertOrdered(t: Tree, key: Word, m: EnvNode)
    requires Ordered(t) && Distinct(t) && key !in Keys(t) && m !in Nodes(t)
    ensures Keys(Insert(t, key, m)) == Keys(t) + {key} && Nodes(Insert(t, key, m)) == Nodes(t) + {m}
    ensures Ordered(Insert(t, key, m)) && Distinct(Insert(t, key, m))
  {
    if t.Branch? {
      if key < t.key { InsertOrdered(t.left, key, m); } else { InsertOrdered(t.right, key, m); }
    }
  }

  lemma {:induction false} InsertSearch(t: Tree, key: Word, m: EnvNode, k: Word)
    requires Ordered(t) && key !in Keys(t)
    ensures Search(Insert(t, key, m), k) == if k == key then m else Search(t, k)
  {
    if t.Branch? {
      if key < t.key { InsertSearch(t.left, key, m, k); } else { InsertSearch(t.right, key, m, k); }
    }
  }

  ghost function Hung(l: Links, key: Word, m: EnvNode): Links {
    if key < l.key then l.(left := m) else l.(right := m)
  }

  /** What inserting does to one node's fields. */
  ghost predicate FieldsAfter(t: Tree, key: Word, m: EnvNode, n: EnvNode)
    requires t.Branch?
  {
    var t' := Insert(t, key, m);
    && n in Nodes(t') && (n != m ==> n in Nodes(t))
    && Fields(t', n) ==
         if n == m then Links(key, null, null)
         else if n == LastOnWay(t, key) then Hung(Fields(t, n), key, m)
         else Fields(t, n)
  }

  /** The last node on the way has another key, and null where the new node goes. */
  lemma {:induction false} WayEnds(t: Tree, key: Word)
    requires t.Branch? && Ordered(t) && Distinct(t) && key !in Keys(t)
    ensures var p := LastOnWay(t, key);
      && p in Nodes(t) && Fields(t, p).key != key
      && (if key < Fields(t, p).key then Fields(t, p).left else Fields(t, p).right) == null
  {
    if Toward(t, key).Branch? {
      WayEnds(Toward(t, key), key);
      FieldsToward(t, key);
    }
  }

  /** Inserting hangs the new node below the last one on the way and touches no other. */
  lemma {:induction false} InsertFields(t: Tree, key: Word, m: EnvNode, n: EnvNode)
    requires t.Branch? && Ordered(t) && Distinct(t) && key !in Keys(t) && m !in Nodes(t)
    requires n in Nodes(t) || n == m
    ensures FieldsAfter(t, key, m, n)
  {
    var next := Toward(t, key);
    InsertOrdered(next, key, m);
    InsertOrdered(t, key, m);
    if next.Branch? {
      if n in Nodes(next) || n == m { InsertFields(next, key, m, n); }
      WayEnds(next, key);
    }
  }

  /** The part of a tree the way leads to keeps its fields. */
  lemma FieldsToward(t: Tree, key: Word)
    requires t.Branch? && Distinct(t)
    ensures forall n | n in Nodes(Toward(t, key)) :: n in Nodes(t) && Fields(t, n) == Fields(Toward(t, key), n)
  {
  }

  lemma InsertedTree(t: Tree, key: Word, m: EnvNode)
    requires t.Branch? && Ordered(t) && Distinct(t) && key !in Keys(t) && m !in Nodes(t)
    ensures var t' := Insert(t, key, m);
      && Ordered(t') && Distinct(t') && Root(t') == Root(t)
      && Keys(t') == Keys(t) + {key} && Nodes(t') == Nodes(t) + {m}
      && (forall k :: Search(t', k) == if k == key then m else Search(t, k))
      && forall n | n in Nodes(t') :: FieldsAfter(t, key, m, n)
  {
    hide Ordered, Distinct, Keys, Nodes, Search, FieldsAfter;
    InsertOrdered(t, key, m);
    forall k ensures Search(Insert(t, key, m), k) == if k == key then m else Search(t, k) {
      InsertSearch(t, key, m, k);
    }
    forall n | n in Nodes(Insert(t, key, m)) ensures FieldsAfter(t, key, m, n) { InsertFields(t, key, m, n); }
  }

  // ---------- one frame ----------

  class Environment {
    var root: EnvNode?
    var last: Environment?
    ghost var tree: Tree
    ghost var nodes: set<EnvNode>

    ghost predicate Valid()
      reads this, nodes
    {
      nodes == Nodes(tree) && root == Root(tree) && Ordered(tree) && Distinct(tree) && Shaped(tree)
    }

    /** The node of a key, if it has one. */
    ghost function NodeOf(key: Word): (r: EnvNode?)
      reads this
      ensures r != null ==> r in nodes
    {
      if Search(tree, key) in nodes then Search(tree, key) else null
    }

    /** Which node holds which key. */
    ghost function Held(): (held: map<Word, EnvNode>)
      reads this
      ensures forall k | k in held :: held[k] in nodes
    {
      map k | k in Keys(tree) && NodeOf(k) != null :: NodeOf(k)
    }

    /** What this frame binds. */
    ghost function Bound(): map<Word, Value>
      reads this, nodes
    {
      map k | k in Keys(tree) && NodeOf(k) != null :: NodeOf(k).value
    }

    /** `env_create`. */
    constructor (last: Environment?)
      ensures Valid() && this.last == last && Bound() == map[] && nodes == {}
    {
      root, this.last, tree, nodes := null, last, Leaf, {};
    }

    /** `env_find`: the node of `key` if this frame binds it, and null otherwise. */
    method EnvFind(key: Word) returns (node: EnvNode?)
      requires Valid()
      ensures node == null <==> key !in Bound()
      ensures node == null <==> key !in Held()
      ensures node != null ==> node == Held()[key] && node.key == key && node.value == Bound()[key]
    {
      SearchFinds(tree, key);
      ghost var t := tree;
      node := root;
      while node != null && key != node.key
        invariant node == Root(t) && Distinct(t) && Shaped(t) && Search(t, key) == Search(tree, key)
        decreases t
      {
        assert Fields(t, node) == Links(t.key, Root(t.left), Root(t.right));
        FieldsToward(t, key);
        node := if key < node.key then node.left else node.right;
        t := Toward(t, key);
      }
    }

    /** The walk of `env_set`: to the node of `key`, or to the last node on the way to where it would be. The
        first turn of the loop only looks at the root again. */
    method Walk(key: Word) returns (node: EnvNode)
      requires Valid() && root != null
      ensures tree.Branch? && node in nodes
      ensures if key in Keys(tree) then node == Search(tree, key) && node.key == key
              else node == LastOnWay(tree, key) && node.key != key
    {
      node := root;
      var temp := root;
      ghost var t, seen := tree, false;
      while temp != null && key != node.key
        invariant t.Branch? && node == t.node && node.key == t.key && Nodes(t) <= nodes
        invariant Ordered(t) && Distinct(t) && Shaped(t)
        invariant key in Keys(t) <==> key in Keys(tree)
        invariant Search(t, key) == Search(tree, key) && LastOnWay(t, key) == LastOnWay(tree, key)
        invariant temp == if seen then Root(Toward(t, key)) else node
        decreases t, !seen
      {
        assert Fields(t, node) == Links(t.key, Root(t.left), Root(t.right));
        if seen {
          FieldsToward(t, key);
          t := Toward(t, key);
        }
        node := temp;
        assert Fields(t, node) == Links(t.key, Root(t.left), Root(t.right));
        temp := if key < temp.key then temp.left else temp.right;
        seen := true;
      }
      if key != node.key { WayEnds(tree, key); }
    }

    /** A zeroed node takes the place of the null below the last node on the way. */
    method Hang(node: EnvNode, key: Word) returns (m: EnvNode)
      requires Valid() && tree.Branch? && key !in Keys(tree) && node == LastOnWay(tree, key) && node in nodes
      modifies this, node
      ensures Valid() && last == old(last) && fresh(m) && m.key == key && m !in Nodes(old(tree))
      ensures tree == Insert(old(tree), key, m) && nodes == old(nodes) + {m}
      ensures node.value == old(node.value)
    {
      ghost var t := tree;
      WayEnds(tree, key);
      assert Links(node.key, node.left, node.right) == Fields(tree, node);
      m := new EnvNode();
      InsertedTree(tree, key, m);
      m.key := key;
      if key < node.key {
        node.left := m;
      } else {
        node.right := m;
      }
      tree, nodes := Insert(tree, key, m), nodes + {m};
      forall n | n in Nodes(tree) ensures Links(n.key, n.left, n.right) == Fields(tree, n) {
        assert FieldsAfter(t, key, m, n);
      }
    }

    lemma NodesByKey()
      requires Valid()
      ensures forall k :: NodeOf(k) == Search(tree, k) && (k in Keys(tree) <==> NodeOf(k) != null)
      ensures forall k :: NodeOf(k) != null ==> NodeOf(k).key == k
    {
      forall k
        ensures NodeOf(k) == Search(tree, k) && (k in Keys(tree) <==> NodeOf(k) != null)
        ensures NodeOf(k) != null ==> NodeOf(k).key == k
      {
        SearchFinds(tree, k);
        var n := NodeOf(k);
        if n != null { assert Links(n.key, n.left, n.right) == Fields(tree, n); }
      }
    }

    /** `calloc` for the root of an empty frame. */
    method FirstNode(key: Word) returns (node: EnvNode)
      requires Valid() && root == null
      modifies this
      ensures Valid() && last == old(last) && nodes == {node} && fresh(node)
      ensures forall k :: NodeOf(k) == if k == key then node else null
    {
      node := new EnvNode();
      node.key := key;
      root := node;
      tree, nodes := Branch(node, key, Leaf, Leaf), {node};
    }

    /** The node `env_set` writes to: the one that is there, or a new one. No other key changes its node. */
    method NodeFor(key: Word) returns (node: EnvNode)
      requires Valid()
      modifies this, nodes
      ensures Valid() && last == old(last) && old(nodes) <= nodes && fresh(nodes - old(nodes))
      ensures forall k :: NodeOf(k) == if k == key then node else old(NodeOf(k))
      ensures old(NodeOf(key)) in {null, node}
      ensures forall n | n in old(nodes) :: n.value == old(n.value)
    {
      NodesByKey();
      if root == null {
        node := FirstNode(key);
      } else {
        node := Walk(key);
        if key != node.key {
          ghost var t := tree;
          node := Hang(node, key);
          forall k ensures Search(tree, k) == if k == key then node else Search(t, k) {
            InsertSearch(t, key, node, k);
          }
          NodesByKey();
        }
      }
    }

    lemma KeysHeld()
      requires Valid()
      ensures forall k :: k in Held() <==> NodeOf(k) != null
      ensures forall k | k in Held() :: Held()[k] == NodeOf(k)
      ensures forall k :: k in Bound() <==> NodeOf(k) != null
      ensures forall k | k in Bound() :: Bound()[k] == NodeOf(k).value
    {
      NodesByKey();
    }

    /** `env_set`: one binding is added or overwritten. A node that is there stays the node of its key. */
    method EnvSet(key: Word, value: Value)
      requires Valid()
      modifies this, nodes
      ensures Valid() && last == old(last) && old(nodes) <= nodes && fresh(nodes - old(nodes))
      ensures Bound() == old(Bound())[key := value]
      ensures forall k | k in old(Held()) :: k in Held() && Held()[k] == old(Held())[k]
    {
      hide Environment.Valid, Environment.NodeOf, Environment.Bound, Environment.Held;
      KeysHeld();
      var node := NodeFor(key);
      KeysHeld();
      Overwrite(node, key, value, this);
    }
  }

  /** A node found by its key is written. */
  method Overwrite(node: EnvNode, key: Word, value: Value, ghost env: Environment)
    requires env.Valid() && key in env.Held() && env.Held()[key] == node
    modifies node
    ensures env.Valid() && env.Bound() == old(env.Bound())[key := value]
  {
    hide Search, Keys, Ordered, Distinct, Nodes, Fields, Root;
    env.NodesByKey();
    node.key, node.value := key, value;
  }

  // ---------- a chain of frames ----------

  ghost function Owned(chain: seq<Environment>): set<EnvNode>
    reads chain
  {
    set i, n | 0 <= i < |chain| && n in chain[i].nodes :: n
  }

  /** The innermost frame first, each linked to the next; no two share a node. */
  ghost predicate Chained(chain: seq<Environment>)
    reads chain, Owned(chain)
  {
    && (forall i | 0 <= i < |chain| ::
          chain[i].Valid() && chain[i].last == if i + 1 < |chain| then chain[i + 1] else null)
    && forall i, j | 0 <= i < j < |chain| :: chain[i] != chain[j] && chain[i].nodes !! chain[j].nodes
  }

  ghost function Maps(chain: seq<Environment>): (stack: Stack<Word>)
    reads chain, Owned(chain)
    ensures |stack| == |chain|
  {
    seq(|chain|, i requires 0 <= i < |chain| reads chain, Owned(chain) => chain[i].Bound())
  }

  /** Which nodes a chain holds. */
  type Holding = seq<map<Word, EnvNode>>

  ghost function Holds(chain: seq<Environment>): (h: Holding)
    reads chain, Owned(chain)
    ensures |h| == |chain|
  {
    seq(|chain|, i requires 0 <= i < |chain| reads chain, Owned(chain) => chain[i].Held())
  }

  /** Nodes may be added, but every node stays the node of its key. */
  ghost predicate Keeps(before: Holding, after: Holding) {
    |after| == |before|
    && forall i, k | 0 <= i < |before| && k in before[i] :: k in after[i] && after[i][k] == before[i][k]
  }

  /** A chain in order, with what it binds and which nodes it holds. */
  ghost predicate View(chain: seq<Environment>, stack: Stack<Word>, held: Holding)
    reads chain, Owned(chain)
  {
    Chained(chain) && Maps(chain) == stack && Holds(chain) == held
  }

  lemma ViewAt(chain: seq<Environment>, stack: Stack<Word>, held: Holding, i: nat)
    requires View(chain, stack, held) && i < |chain|
    ensures |stack| == |held| == |chain|
    ensures chain[i].Valid() && chain[i].last == if i + 1 < |chain| then chain[i + 1] else null
    ensures stack[i] == chain[i].Bound() && held[i] == chain[i].Held()
  {
  }

  lemma FoundIn(stack: Stack<Word>, from: nat, key: Word, i: nat)
    requires from <= i <= |stack| && (i < |stack| ==> key in stack[i])
    requires forall j | from <= j < i :: key !in stack[j]
    ensures Innermost(stack, from, key) == i
  {
  }

  /** `env_find_recurse`: the node of the innermost binding, from frame `from` on. */
  method EnvFindRecurse(first: Environment, key: Word, ghost chain: seq<Environment>, ghost from: nat,
                        ghost stack: Stack<Word>, ghost held: Holding)
    returns (node: EnvNode?)
    requires from < |chain| && first == chain[from] && View(chain, stack, held)
    ensures View(chain, stack, held) && |stack| == |held| == |chain|
    ensures var i := Innermost(stack, from, key);
      if i < |chain| then key in held[i] && node == held[i][key] else node == null
  {
    hide Environment.Valid, Environment.Bound, Environment.Held, Environment.NodeOf;
    var env: Environment? := first;
    ghost var i := from;
    node := null;
    ViewAt(chain, stack, held, from);
    while true
      invariant from <= i < |chain| && env == chain[i] && View(chain, stack, held)
      invariant forall j | from <= j < i :: key !in stack[j]
      decreases |chain| - i
    {
      ViewAt(chain, stack, held, i);
      node := env.EnvFind(key);
      ViewAt(chain, stack, held, i);
      env := env.last;
      if env == null || node != null { break; }
      i := i + 1;
    }
    FoundIn(stack, from, key, if node == null then i + 1 else i);
  }

  /** `env_set` on one frame of a chain. */
  method EnvSetIn(env: Environment, key: Word, value: Value, ghost chain: seq<Environment>, ghost i: nat)
    requires i < |chain| && env == chain[i] && Chained(chain)
    modifies env, env.nodes
    ensures Chained(chain) && fresh(Owned(chain) - old(Owned(chain)))
    ensures Maps(chain) == Bind(old(Maps(chain)), i, key, value)
    ensures Keeps(old(Holds(chain)), Holds(chain))
  {
    hide Environment.Valid, Environment.Bound, Environment.Held, Environment.NodeOf;
    ghost var before := seq(|chain|, j requires 0 <= j < |chain| reads chain => chain[j].nodes);
    env.EnvSet(key, value);
    assert forall j | 0 <= j < |chain| && j != i ::
      && chain[j].Valid() && chain[j].nodes == before[j] && chain[j].last == old(chain[j].last)
      && chain[j].Bound() == old(chain[j].Bound()) && chain[j].Held() == old(chain[j].Held());
    assert forall j | 0 <= j < |chain| && j != i :: before[j] !! env.nodes;
    assert forall j | 0 <= j < |chain| ::
      chain[j].Valid() && chain[j].last == if j + 1 < |chain| then chain[j + 1] else null;
    forall j, k | 0 <= j < k < |chain| ensures chain[j] != chain[k] && chain[j].nodes !! chain[k].nodes {
      if j == i {
        assert chain[k].nodes == before[k];
      } else if k == i {
        assert chain[j].nodes == before[j];
      }
    }
  }

  /** `env_set_recurse` when the search finds a node. */
  method OverwriteIn(node: EnvNode, key: Word, value: Value, ghost chain: seq<Environment>, ghost i: nat)
    requires i < |chain| && Chained(chain) && key in chain[i].Held() && chain[i].Held()[key] == node
    modifies node
    ensures Chained(chain) && Owned(chain) == old(Owned(chain))
    ensures Maps(chain) == Bind(old(Maps(chain)), i, key, value)
    ensures Keeps(old(Holds(chain)), Holds(chain))
  {
    hide Environment.Valid, Environment.Bound, Environment.Held, Environment.NodeOf;
    Overwrite(node, key, value, chain[i]);
    assert forall j | 0 <= j < |chain| && j != i ::
      && chain[j].Valid() && chain[j].nodes == old(chain[j].nodes)
      && chain[j].Bound() == old(chain[j].Bound()) && chain[j].Held() == old(chain[j].Held());
  }

  /** `env_set_recurse` on frame `from` of a chain: the innermost binding from there on is overwritten, or one is
      added to that frame. */
  method EnvSetRecurse(first: Environment, key: Word, value: Value, ghost chain: seq<Environment>, ghost from: nat)
    requires from < |chain| && first == chain[from] && Chained(chain)
    modifies chain, Owned(chain)
    ensures Chained(chain) && fresh(Owned(chain) - old(Owned(chain)))
    ensures Maps(chain) == ApplyOp(old(Maps(chain)), SetRecurse(from, key, value))
    ensures Keeps(old(Holds(chain)), Holds(chain))
  {
    hide Environment.Valid, Environment.Bound, Environment.Held, Environment.NodeOf;
    ghost var stack, held := Maps(chain), Holds(chain);
    var node := EnvFindRecurse(first, key, chain, from, stack, held);
    if node != null {
      ViewAt(chain, stack, held, Innermost(stack, from, key));
      OverwriteIn(node, key, value, chain, Innermost(stack, from, key));
    } else {
      EnvSetIn(first, key, value, chain, from);
    }
  }

  method PerformOne(chain: seq<Environment>, op: Op<Word>)
    requires Chained(chain) && op.frame < |chain|
    modifies chain, Owned(chain)
    ensures Chained(chain) && fresh(Owned(chain) - old(Owned(chain)))
    ensures Maps(chain) == ApplyOp(old(Maps(chain)), op) && Keeps(old(Holds(chain)), Holds(chain))
  {
    hide Environment.Valid, Environment.Bound, Environment.Held, Environment.NodeOf;
    var env := chain[op.frame];
    match op {
      case Set(frame, key, value) => EnvSetIn(env, key, value, chain, frame);
      case SetRecurse(frame, key, value) => EnvSetRecurse(env, key, value, chain, frame);
    }
  }

  /** Any run of the two operations does to the maps of a chain what the model says, and every node stays the node
      of its key. By `CapturedStaysLive`, a node captured before the run is the one lookup finds after it if and only
      if no operation bound its key nearer. */
  method Perform(chain: seq<Environment>, ops: seq<Op<Word>>)
    requires Chained(chain) && InRange(ops, |chain|)
    modifies chain, Owned(chain)
    ensures Chained(chain) && Maps(chain) == RunOps(old(Maps(chain)), ops)
    ensures Keeps(old(Holds(chain)), Holds(chain))
  {
    hide Environment.Valid, Environment.Bound, Environment.Held, Environment.NodeOf;
    for n := 0 to |ops|
      invariant Chained(chain) && fresh(Owned(chain) - old(Owned(chain)))
      invariant RunOps(Maps(chain), ops[n..]) == RunOps(old(Maps(chain)), ops)
      invariant Keeps(old(Holds(chain)), Holds(chain))
    {
      PerformOne(chain, ops[n]);
      assert ops[n..][0] == ops[n] && ops[n..][1..] == ops[n + 1..];
    }
  }
}
