/** Symbol interning: equal spellings share one address, so symbols can be compared as pointers. */
module Symbols {

  /** A string in memory. Its address is its identity. */
  class Chars {
    const text: string

    constructor (text: string)
      ensures this.text == text
    {
      this.text := text;
    }
  }

  class TreeNode {
    var left: TreeNode?
    var right: TreeNode?
    var data: Chars

    constructor (data: Chars)
      ensures this.data == data && left == null && right == null
    {
      this.data, left, right := data, null, null;
    }
  }

  /** `strcmp`. */
  function Compare(a: string, b: string): (n: int)
    decreases a
  {
    if a == "" || b == "" then |a| - |b|
    else if a[0] != b[0] then a[0] as int - b[0] as int
    else Compare(a[1..], b[1..])
  }

  lemma {:induction false} CompareIsEquality(a: string, b: string)
    ensures Compare(a, b) == 0 <==> a == b
    decreases a
  {
    if a != "" && b != "" && a[0] == b[0] {
      CompareIsEquality(a[1..], b[1..]);
      assert a == [a[0]] + a[1..] && b == [b[0]] + b[1..];
    }
  }

  // ---------- trees ----------

  datatype Tree = Leaf | Branch(node: TreeNode, data: Chars, left: Tree, right: Tree)

  ghost function Nodes(t: Tree): set<TreeNode> {
    if t.Leaf? then {} else {t.node} + Nodes(t.left) + Nodes(t.right)
  }

  ghost function Stored(t: Tree): set<Chars> {
    if t.Leaf? then {} else {t.data} + Stored(t.left) + Stored(t.right)
  }

  /** A comparison below zero leads left. */
  ghost predicate Ordered(t: Tree) {
    t.Branch? ==>
      && Ordered(t.left) && Ordered(t.right)
      && (forall s | s in Stored(t.left) :: Compare(t.data.text, s.text) < 0)
      && (forall s | s in Stored(t.right) :: Compare(t.data.text, s.text) > 0)
  }

  ghost predicate Distinct(t: Tree) {
    t.Branch? ==>
      && Distinct(t.left) && Distinct(t.right)
      && t.node !in Nodes(t.left) && t.node !in Nodes(t.right) && Nodes(t.left) !! Nodes(t.right)
  }

  ghost predicate Shaped(n: TreeNode?, t: Tree)
    reads Nodes(t)
  {
    match t
    case Leaf => n == null
    case Branch(m, data, left, right) => n == m && m.data == data && Shaped(m.left, left) && Shaped(m.right, right)
  }

  /** The string a search ends at. */
  ghost function Find(t: Tree, text: string): (r: Chars?)
    ensures r != null ==> r in Stored(t)
  {
    if t.Leaf? then null
    else
      var n := Compare(t.data.text, text);
      if n == 0 then t.data else Find(if n < 0 then t.left else t.right, text)
  }

  /** A search finds the one string with its spelling, if there is one. */
  lemma {:induction false} FindsTheOne(t: Tree, text: string)
    requires Ordered(t)
    ensures Find(t, text) != null ==> Find(t, text).text == text
    ensures forall s | s in Stored(t) && s.text == text :: Find(t, text) == s
  {
    if t.Branch? {
      CompareIsEquality(t.data.text, text);
      FindsTheOne(t.left, text);
      FindsTheOne(t.right, text);
    }
  }

  ghost function Insert(t: Tree, s: Chars, m: TreeNode): Tree {
    match t
    case Leaf => Branch(m, s, Leaf, Leaf)
    case Branch(n, data, left, right) =>
      var c := Compare(data.text, s.text);
      if c < 0 then Branch(n, data, Insert(left, s, m), right)
      else if c > 0 then Branch(n, data, left, Insert(right, s, m))
      else t
  }

  lemma {:induction false} InsertKeeps(t: Tree, s: Chars, m: TreeNode)
    requires Ordered(t) && Distinct(t) && m !in Nodes(t)
    ensures Ordered(Insert(t, s, m)) && Distinct(Insert(t, s, m))
    ensures Nodes(t) <= Nodes(Insert(t, s, m)) <= Nodes(t) + {m}
    ensures Stored(t) <= Stored(Insert(t, s, m)) <= Stored(t) + {s}
  {
    if t.Branch? {
      InsertKeeps(t.left, s, m);
      InsertKeeps(t.right, s, m);
    }
  }

  lemma {:induction false} InsertFind(t: Tree, s: Chars, m: TreeNode, text: string)
    ensures Find(Insert(t, s, m), text) == if text == s.text && Find(t, text) == null then s else Find(t, text)
  {
    CompareIsEquality(s.text, text);
    if t.Branch? {
      CompareIsEquality(t.data.text, text);
      CompareIsEquality(t.data.text, s.text);
      InsertFind(t.left, s, m, text);
      InsertFind(t.right, s, m, text);
    }
  }

  // ---------- the table ----------

  class SymbolTable {
    var tree: TreeNode?
    ghost var shape: Tree
    ghost var nodes: set<TreeNode>

    ghost predicate Valid()
      reads this, nodes
    {
      nodes == Nodes(shape) && Ordered(shape) && Distinct(shape) && Shaped(tree, shape)
    }

    /** The address stored for a spelling. */
    ghost function AddressOf(text: string): Chars?
      reads this
    {
      Find(shape, text)
    }

    constructor ()
      ensures Valid() && forall text :: AddressOf(text) == null
    {
      tree, shape, nodes := null, Leaf, {};
    }

    /** `tree_lookup`. */
    method TreeLookup(n: TreeNode?, text: string, ghost t: Tree) returns (r: Chars?)
      requires Shaped(n, t)
      ensures r == Find(t, text)
      decreases t
    {
      if n == null { return null; }
      var c := Compare(n.data.text, text);
      if c == 0 { return n.data; }
      if c < 0 {
        r := TreeLookup(n.left, text, t.left);
      } else {
        r := TreeLookup(n.right, text, t.right);
      }
    }

    /** `tree_insert`: the links on the way are written again, all but the last with what they held. */
    method TreeInsert(n: TreeNode?, s: Chars, ghost t: Tree, ghost nodes: set<TreeNode>)
      returns (r: TreeNode, ghost t': Tree, ghost m: TreeNode)
      requires nodes == Nodes(t) && Distinct(t) && Shaped(n, t)
      modifies nodes
      ensures if Find(t, s.text) != null then t' == t else fresh(m) && t' == Insert(t, s, m)
      ensures Shaped(r, t') && fresh(Nodes(t') - nodes) && (n != null ==> r == n)
      decreases t
    {
      hide Compare;
      if n == null {
        r := new TreeNode(s);
        m := r;
        t' := Branch(r, s, Leaf, Leaf);
        return;
      }
      r, m := n, n;
      var c := Compare(n.data.text, s.text);
      ghost var lefts, rights := Nodes(t.left), Nodes(t.right);
      if c < 0 {
        var below;
        ghost var t1;
        below, t1, m := TreeInsert(n.left, s, t.left, lefts);
        assert Shaped(n.right, t.right) && n !in Nodes(t1);
        n.left := below;
        assert Shaped(below, t1) && Shaped(n.right, t.right);
        t' := Branch(n, t.data, t1, t.right);
      } else if c > 0 {
        var below;
        ghost var t1;
        below, t1, m := TreeInsert(n.right, s, t.right, rights);
        assert Shaped(n.left, t.left) && n !in Nodes(t1);
        n.right := below;
        assert Shaped(below, t1) && Shaped(n.left, t.left);
        t' := Branch(n, t.data, t.left, t1);
      } else {
        t' := t;
      }
    }

    /** `store_symbol`. */
    method StoreSymbol(s: Chars)
      requires Valid() && AddressOf(s.text) == null
      modifies this, nodes
      ensures Valid() && fresh(nodes - old(nodes))
      ensures forall text :: AddressOf(text) == if text == s.text then s else old(AddressOf(text))
    {
      hide Find, Compare, Insert, Ordered, Distinct, Stored;
      ghost var t := shape;
      var temp;
      ghost var m;
      temp, shape, m := TreeInsert(tree, s, shape, nodes);
      InsertKeeps(t, s, m);
      forall text ensures Find(shape, text) == if text == s.text then s else Find(t, text) {
        InsertFind(t, s, m, text);
      }
      nodes := Nodes(shape);
      if tree == null { tree := temp; }
    }

    /** `try_store_symbol`: the address already stored for the spelling, or that of a copy made now. No other
        spelling's address changes. */
    method TryStoreSymbol(symbol: string) returns (r: Chars)
      requires Valid()
      modifies this, nodes
      ensures Valid() && fresh(nodes - old(nodes)) && r.text == symbol
      ensures old(AddressOf(symbol)) in {null, r}
      ensures forall text :: AddressOf(text) == if text == symbol then r else old(AddressOf(text))
    {
      FindsTheOne(shape, symbol);
      var found := TreeLookup(tree, symbol, shape);
      if found != null { return found; }
      r := new Chars(symbol);
      StoreSymbol(r);
    }

    /** However many symbols are read, two of them are the same pointer if and only if they are spelled alike. */
    method Intern(symbols: seq<string>) returns (addresses: seq<Chars>)
      requires Valid()
      modifies this, nodes
      ensures Valid() && |addresses| == |symbols|
      ensures forall i, j | 0 <= i < |symbols| && 0 <= j < |symbols| ::
        addresses[i] == addresses[j] <==> symbols[i] == symbols[j]
    {
      hide Find, Compare, Insert, Ordered, Distinct, Stored, Nodes, Shaped;
      addresses := [];
      for n := 0 to |symbols|
        invariant Valid() && fresh(nodes - old(nodes)) && |addresses| == n
        invariant forall i | 0 <= i < n :: addresses[i].text == symbols[i] && AddressOf(symbols[i]) == addresses[i]
      {
        var address := TryStoreSymbol(symbols[n]);
        addresses := addresses + [address];
      }
    }
  }
}
