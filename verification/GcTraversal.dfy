/** The whole traversal: exactly when it ends and marks what it should. */
module GcTraversal {
  import opened Gc

  // ---------- the loop body, as a function ----------

  ghost predicate GoodRef(h: Layout, w: nat) { h.IsRef(w) && h.RefOk(w) }

  lemma LinkEndKeeps(h: Layout, m: Mem, end: nat, next: nat)
    requires HeapOk(h, m) && GoodRef(h, end) && GoodRef(h, next)
    ensures var m' := LinkEnd(h, m, end, next);
      && HeapOk(h, m') && SamePayloads(h, m, m') && OnlyHeaders(h, m, m')
      && forall j | j in h.blocks && j != h.Index(next) :: Flags(m', j) == Flags(m, j)
  {
    hide SamePayloads, OnlyHeaders, SetLink, SetFlags, Link, Flags;
    var e, n := h.Index(end), h.Index(next);
    var m1 := SetLink(m, e, next);
    var m2 := SetFlags(m1, n, FLAG_GREY);
    SetLinkEffect(h, m, e, next);
    SetFlagsEffect(h, m1, n, FLAG_GREY);
    SetLinkEffect(h, m2, n, 0);
    SamePayloadsTwice(h, m, m1, m2);
    SamePayloadsTwice(h, m, m2, SetLink(m2, n, 0));
  }

  /** The heap is still in order, with the same payloads, and no mark is gone. */
  ghost predicate Onward(h: Layout, m: Mem, m': Mem)
    requires HeapOk(h, m)
  {
    && HeapOk(h, m') && SamePayloads(h, m, m') && OnlyHeaders(h, m, m')
    && forall j | j in h.blocks && Marked(m, j) :: Marked(m', j)
  }

  lemma OnwardTwice(h: Layout, a: Mem, b: Mem, c: Mem)
    requires HeapOk(h, a) && HeapOk(h, b) && Onward(h, a, b) && Onward(h, b, c)
    ensures Onward(h, a, c)
  {
    SamePayloadsTwice(h, a, b, c);
  }

  datatype Search = Search(m: Mem, cur: nat, last: nat) | Lost

  /** `try_link`: the memory and the end of the queue. */
  ghost function TryOf(h: Layout, m: Mem, last: nat, w: nat): (r: (Mem, nat))
    requires HeapOk(h, m) && GoodRef(h, last) && h.RefOk(w)
    ensures Onward(h, m, r.0) && GoodRef(h, r.1)
  {
    if ShouldLink(h, m, w) then
      LinkEndKeeps(h, m, last, w);
      (LinkEnd(h, m, last, w), w)
    else (m, last)
  }

  lemma MarkOnward(h: Layout, m: Mem, i: nat)
    requires HeapOk(h, m) && i in h.blocks
    ensures Onward(h, m, MarkBlock(m, i))
  {
    MarkBlockEffect(h, m, i);
  }

  /** The children of a block, queued. */
  ghost function ChildrenOf(h: Layout, m: Mem, i: nat, last: nat): (r: (Mem, nat))
    requires HeapOk(h, m) && i in h.pairs && GoodRef(h, last)
    ensures Onward(h, m, r.0) && GoodRef(h, r.1)
  {
    var first := TryOf(h, m, last, Car(m, i));
    var second := TryOf(h, first.0, first.1, Cdr(first.0, i));
    OnwardTwice(h, m, first.0, second.0);
    second
  }

  /** One turn of the loop of `mark_traverse`. */
  ghost function TurnOf(h: Layout, m: Mem, cur: nat, last: nat): (s: Search)
    requires HeapOk(h, m) && GoodRef(h, cur) && GoodRef(h, last)
    ensures s.Search? && Onward(h, m, s.m) && GoodRef(h, s.last)
  {
    var i := h.Index(cur);
    var marked := MarkBlock(m, i);
    MarkOnward(h, m, i);
    if cur % 16 == TYPE_PAIR then
      var r := ChildrenOf(h, marked, i, last);
      OnwardTwice(h, m, marked, r.0);
      Search(r.0, Link(r.0, i), r.1)
    else Search(marked, Link(marked, i), last)
  }

  ghost predicate SearchOk(h: Layout, s: Search) { s.Search? ==> HeapOk(h, s.m) && GoodRef(h, s.last) }

  /** At most `n` turns. A link word that is neither zero nor a reference to a block leads out of the heap: the
      search is lost. */
  ghost function TurnsOf(h: Layout, s: Search, n: nat): (r: Search)
    requires SearchOk(h, s)
    ensures SearchOk(h, r)
    decreases n
  {
    if n == 0 || s.Lost? || s.cur == 0 then s
    else if !GoodRef(h, s.cur) then Lost
    else TurnsOf(h, TurnOf(h, s.m, s.cur, s.last), n - 1)
  }

  /** The loop ends after at most `n` turns. */
  ghost predicate Over(h: Layout, s: Search, n: nat)
    requires SearchOk(h, s)
  {
    TurnsOf(h, s, n).Search? && TurnsOf(h, s, n).cur == 0
  }

  /** A search that will be over, and is not, has a turn to take. */
  lemma NextTurn(h: Layout, s: Search, n: nat)
    requires SearchOk(h, s) && Over(h, s, n) && s.Search? && s.cur != 0
    ensures n > 0 && GoodRef(h, s.cur) && TurnsOf(h, s, n) == TurnsOf(h, TurnOf(h, s.m, s.cur, s.last), n - 1)
  {
    hide TurnOf;
  }

  /** With nothing left to do. */
  lemma NoTurn(h: Layout, s: Search, n: nat)
    requires SearchOk(h, s) && s.Search? && s.cur == 0
    ensures TurnsOf(h, s, n) == s
  {
  }

  lemma {:induction false} TurnsOnward(h: Layout, s: Search, n: nat)
    requires s.Search? && SearchOk(h, s) && TurnsOf(h, s, n).Search?
    ensures Onward(h, s.m, TurnsOf(h, s, n).m)
    decreases n
  {
    hide TurnOf;
    if n > 0 && s.cur != 0 {
      var next := TurnOf(h, s.m, s.cur, s.last);
      TurnsOnward(h, next, n - 1);
      OnwardTwice(h, s.m, next.m, TurnsOf(h, s, n).m);
    }
  }

  /** Once over, over. */
  lemma {:induction false} OverOnce(h: Layout, s: Search, n: nat, k: nat)
    requires SearchOk(h, s) && Over(h, s, n) && Over(h, s, k)
    ensures TurnsOf(h, s, n) == TurnsOf(h, s, k)
    decreases n
  {
    hide TurnOf;
    if s.cur != 0 {
      OverOnce(h, TurnOf(h, s.m, s.cur, s.last), n - 1, k - 1);
    }
  }

  // ---------- a search with a queue ends, and is exact ----------

  /** The loop, started at `s`, ends with exactly the right marks. */
  ghost predicate EndsExactly(h: Layout, m0: Mem, s: Search, root: nat)
    requires HeapOk(h, m0) && SearchOk(h, s)
  {
    exists n: nat :: EndsExactlyIn(h, m0, s, root, n)
  }

  ghost predicate EndsExactlyIn(h: Layout, m0: Mem, s: Search, root: nat, n: nat)
    requires HeapOk(h, m0) && SearchOk(h, s)
  {
    Over(h, s, n) && |TurnsOf(h, s, n).m| == |m0| && Exact(h, m0, TurnsOf(h, s, n).m, root)
  }

  lemma OneTurnEarlier(h: Layout, m0: Mem, m: Mem, cur: nat, last: nat, root: nat)
    requires HeapOk(h, m0) && HeapOk(h, m) && GoodRef(h, cur) && GoodRef(h, last)
    requires EndsExactly(h, m0, TurnOf(h, m, cur, last), root)
    ensures EndsExactly(h, m0, Search(m, cur, last), root)
  {
    hide TurnOf, Exact, HeapOk;
    var n: nat :| EndsExactlyIn(h, m0, TurnOf(h, m, cur, last), root, n);
    assert TurnsOf(h, Search(m, cur, last), n + 1) == TurnsOf(h, TurnOf(h, m, cur, last), n);
    assert EndsExactlyIn(h, m0, Search(m, cur, last), root, n + 1);
  }

  /** Queueing the children of the head, which is marked. */
  lemma ChildrenQueued(
    h: Layout, m0: Mem, m: Mem, root: nat, done: set<nat>, queue: seq<nat>, alone: nat, i: nat, last: nat)
    returns (longer: seq<nat>)
    requires Turning(h, m0, m, root, done, queue, alone)
    requires queue[|queue| - 1] == last && h.Index(queue[0]) == i && i in h.pairs && GoodRef(h, last)
    ensures HeapOk(h, m) && queue <= longer
    ensures var r := ChildrenOf(h, m, i, last);
      && Turning(h, m0, r.0, root, done, longer, alone) && r.1 == longer[|longer| - 1]
      && |Unseen(h, r.0)| + |longer| == |Unseen(h, m)| + |queue|
    ensures forall j | Edge(h, m0, i, j) :: Known(h, m0, done, longer[1..], j)
    ensures forall k | |queue| <= k < |longer| :: h.InHeap(longer[k]) && Edge(h, m0, i, h.Index(longer[k]))
  {
    hide Turning, LinkEnd, Known, Unseen, HeapOk, ShouldLink, Layout.Index, Layout.RefOk;
    TurningParts(h, m0, m, root, done, queue, alone);
    var car := Car(m, i);
    var first := TryOf(h, m, last, car);
    longer := AfterTry(h, m0, m, root, done, queue, alone, car);
    TurningParts(h, m0, first.0, root, done, longer, alone);
    var queue2 := longer;
    var cdr := Cdr(first.0, i);
    longer := AfterTry(h, m0, first.0, root, done, queue2, alone, cdr);
    EdgesOfPair(h, m0, i, car, cdr);
  }

  /** A turn on the head of the queue keeps the search going. */
  lemma TurnSearches(
    h: Layout, m0: Mem, m: Mem, cur: nat, last: nat, root: nat, done: set<nat>, queue: seq<nat>, alone: nat)
    returns (longer: seq<nat>)
    requires HeapOk(h, m) && queue != [] && queue[0] == cur && queue[|queue| - 1] == last && GoodRef(h, cur)
    requires Turning(h, m0, MarkBlock(m, h.Index(cur)), root, done, queue, alone)
    ensures GoodRef(h, last) && longer != [] && queue <= longer
    ensures var s := TurnOf(h, m, cur, last);
      && s.last == longer[|longer| - 1] && s.cur == (if |longer| > 1 then longer[1] else alone)
      && Searching(h, m0, s.m, root, done, longer[1..])
      && |Unseen(h, s.m)| + |longer| == |Unseen(h, m) - {h.Index(cur)}| + |queue|
    ensures forall j | Edge(h, m0, h.Index(cur), j) :: Known(h, m0, done, longer[1..], j)
    ensures forall k | |queue| <= k < |longer| :: h.InHeap(longer[k]) && Edge(h, m0, h.Index(cur), h.Index(longer[k]))
  {
    hide Turning, Searching, MarkBlock, Known, Unseen, HeapOk, Layout.Index, Edge;
    HeapPlaced(h, m);
    var i := h.Index(cur);
    MarkSees(h, m, i);
    TurningParts(h, m0, MarkBlock(m, i), root, done, queue, alone);
    MarkOnward(h, m, i);
    longer := queue;
    var after := MarkBlock(m, i);
    if cur % 16 == TYPE_PAIR {
      longer := ChildrenQueued(h, m0, MarkBlock(m, i), root, done, queue, alone, i, last);
      after := ChildrenOf(h, MarkBlock(m, i), i, last).0;
    }
    TurningParts(h, m0, after, root, done, longer, alone);
    EndTurn(h, m0, after, root, done, longer, alone);
  }

  /** A turn on a queue that is not the first: the search goes on, with less to do. */
  lemma SearchStep(
    h: Layout, m0: Mem, m: Mem, last: nat, root: nat, done: set<nat>, queue: seq<nat>)
    returns (rest: seq<nat>)
    requires Searching(h, m0, m, root, done, queue) && queue != [] && last == queue[|queue| - 1]
    ensures HeapOk(h, m) && GoodRef(h, queue[0]) && GoodRef(h, last)
    ensures var s := TurnOf(h, m, queue[0], last);
      && Searching(h, m0, s.m, root, done + {h.Index(queue[0])}, rest)
      && (if rest == [] then s.cur == 0 else s.cur == rest[0] && s.last == rest[|rest| - 1])
      && |Unseen(h, s.m)| + |rest| < |Unseen(h, m)| + |queue|
  {
    hide Searching, Turning, Known, MarkBlock, HeapOk, TurnOf, Edge, Unseen, Layout.Index;
    SearchingParts(h, m0, m, root, done, queue);
    var i := h.Index(queue[0]);
    StartTurn(h, m0, m, root, done, queue);
    var longer := TurnSearches(h, m0, m, queue[0], last, root, done + {i}, queue, 0);
    rest := longer[1..];
    assert |Unseen(h, m) - {i}| <= |Unseen(h, m)|;
  }

  lemma {:induction false} SearchEnds(
    h: Layout, m0: Mem, m: Mem, cur: nat, last: nat, root: nat, done: set<nat>, queue: seq<nat>)
    requires Searching(h, m0, m, root, done, queue) && CleanMarks(h, m0) && GoodRef(h, last)
    requires h.IsRef(root) && h.Index(root) in done
    requires if queue == [] then cur == 0 else cur == queue[0] && last == queue[|queue| - 1]
    ensures HeapOk(h, m0) && SearchOk(h, Search(m, cur, last)) && EndsExactly(h, m0, Search(m, cur, last), root)
    decreases |Unseen(h, m)| + |queue|
  {
    hide Searching, Exact, HeapOk, CleanMarks, TurnOf, Unseen, Layout.Index, EndsExactly, Layout.RefOk;
    SearchingParts(h, m0, m, root, done, queue);
    SearchingHeap(h, m0, m, root, done, queue);
    if queue == [] {
      Finished(h, m0, m, root, done);
      ExactNow(h, m0, m, last, root);
    } else {
      var rest := SearchStep(h, m0, m, last, root, done, queue);
      var next := TurnOf(h, m, cur, last);
      SearchEnds(h, m0, next.m, next.cur, next.last, root, done + {h.Index(cur)}, rest);
      OneTurnEarlier(h, m0, m, cur, last, root);
    }
  }

  lemma SearchingHeap(h: Layout, m0: Mem, m: Mem, root: nat, done: set<nat>, queue: seq<nat>)
    requires Searching(h, m0, m, root, done, queue)
    ensures HeapOk(h, m0)
  {
  }

  lemma ExactNow(h: Layout, m0: Mem, m: Mem, last: nat, root: nat)
    requires HeapOk(h, m0) && HeapOk(h, m) && |m| == |m0| && GoodRef(h, last) && Exact(h, m0, m, root)
    ensures EndsExactly(h, m0, Search(m, 0, last), root)
  {
    hide Exact, HeapOk;
    assert EndsExactlyIn(h, m0, Search(m, 0, last), root, 0);
  }

  // ---------- a root with nothing to queue ----------

  ghost predicate Childless(h: Layout, m: Mem, root: nat)
    requires h.Placed(|m|) && h.InHeap(root)
  {
    forall j: nat :: !FreshChild(h, m, root, j)
  }

  /** From the word `w`, `k` links over marked blocks, or the root, lead to zero. */
  ghost predicate LeadsOut(h: Layout, m: Mem, root: nat, w: nat, k: nat)
    requires h.Placed(|m|) && h.InHeap(root)
    decreases k
  {
    if k == 0 then w == 0
    else
      && GoodRef(h, w) && (Marked(m, h.Index(w)) || h.Index(w) == h.Index(root))
      && LeadsOut(h, m, root, Link(m, h.Index(w)), k - 1)
  }

  /** The link word of an unmarked root is harmless: it is zero, or it will be written, or it leads over marked
      blocks to zero. */
  ghost predicate RootLinkOk(h: Layout, m: Mem, root: nat)
    requires h.Placed(|m|) && h.InHeap(root) && h.Index(root) in h.blocks
  {
    FirstHopOk(h, m, root) || exists k: nat :: LeadsOut(h, m, root, Link(m, h.Index(root)), k)
  }

  /** No child of a marked block is ever queued. */
  ghost predicate NothingToQueue(h: Layout, m: Mem, i: nat)
    requires HeapOk(h, m)
  {
    i in h.pairs ==> !ShouldLink(h, m, Car(m, i)) && !ShouldLink(h, m, Cdr(m, i))
  }

  lemma IdleTurn(h: Layout, m: Mem, cur: nat, last: nat)
    requires HeapOk(h, m) && GoodRef(h, cur) && GoodRef(h, last)
    requires NothingToQueue(h, MarkBlock(m, h.Index(cur)), h.Index(cur))
    ensures TurnOf(h, m, cur, last) ==
      Search(MarkBlock(m, h.Index(cur)), Link(MarkBlock(m, h.Index(cur)), h.Index(cur)), last)
  {
  }

  lemma MarkAgain(m: Mem, i: nat)
    requires 3 <= i <= |m| && Marked(m, i)
    ensures MarkBlock(m, i) == m
  {
  }

  /** After the root's own turn: only the root's flags have changed, and no marked block has anything to queue. */
  lemma LoneRoot(h: Layout, m0: Mem, root: nat)
    requires HeapOk(h, m0) && CleanMarks(h, m0) && GoodRef(h, root) && ShouldLink(h, m0, root)
    requires Childless(h, m0, root)
    ensures var m := MarkBlock(m0, h.Index(root));
      && HeapOk(h, m) && SamePayloads(h, m0, m) && Marked(m, h.Index(root))
      && (forall j | j in h.blocks :: Link(m, j) == Link(m0, j))
      && (forall j | j in h.blocks && j != h.Index(root) :: Flags(m, j) == Flags(m0, j))
      && forall j | j in h.blocks && Marked(m, j) :: NothingToQueue(h, m, j)
  {
    var r := h.Index(root);
    MarkBlockEffect(h, m0, r);
    var m := MarkBlock(m0, r);
    forall j, w | j in h.pairs && Marked(m, j) && w in {Car(m, j), Cdr(m, j)} ensures !ShouldLink(h, m, w) {
      if h.IsRef(w) {
        assert Edge(h, m0, j, h.Index(w));
        if j == r { assert !FreshChild(h, m0, root, h.Index(w)); }
      }
    }
  }

  /** Such a root reaches nothing unmarked but itself. */
  lemma LoneReaches(h: Layout, m0: Mem, root: nat, j: nat)
    requires HeapOk(h, m0) && CleanMarks(h, m0) && GoodRef(h, root) && ShouldLink(h, m0, root)
    requires Childless(h, m0, root) && Reaches(h, m0, root, j)
    ensures j == h.Index(root) || (j in h.blocks && Marked(m0, j))
  {
    var r := h.Index(root);
    var known := {r} + set i | i in h.blocks && Marked(m0, i);
    forall i, k | i in known && Edge(h, m0, i, k) ensures k in known {
      EdgeTarget(h, m0, i, k);
      if i == r && k != r { assert !FreshChild(h, m0, root, k); }
    }
    var n: nat :| Path(h, m0, r, j, n);
    PathStaysIn(h, m0, known, r, j, n);
  }

  lemma EdgeTarget(h: Layout, m: Mem, i: nat, k: nat)
    requires HeapOk(h, m) && Edge(h, m, i, k)
    ensures k in h.blocks
  {
  }

  /** Along marked blocks the search changes nothing; out of them it leads to zero with nothing else marked. */
  lemma {:induction false} ChaseEnds(h: Layout, m0: Mem, root: nat, w: nat, k: nat)
    requires HeapOk(h, m0) && CleanMarks(h, m0) && GoodRef(h, root) && ShouldLink(h, m0, root)
    requires Childless(h, m0, root) && LeadsOut(h, m0, root, w, k)
    ensures var s := Search(MarkBlock(m0, h.Index(root)), w, root);
      SearchOk(h, s) && EndsExactly(h, m0, s, root)
    decreases k
  {
    hide TurnOf, Exact;
    var m := MarkBlock(m0, h.Index(root));
    LoneRoot(h, m0, root);
    if k == 0 {
      LoneExact(h, m0, root);
      assert EndsExactlyIn(h, m0, Search(m, w, root), root, 0);
    } else {
      var i := h.Index(w);
      MarkAgain(m, i);
      IdleTurn(h, m, w, root);
      ChaseEnds(h, m0, root, Link(m0, i), k - 1);
      OneTurnEarlier(h, m0, m, w, root, root);
    }
  }

  lemma LoneExact(h: Layout, m0: Mem, root: nat)
    requires HeapOk(h, m0) && CleanMarks(h, m0) && GoodRef(h, root) && ShouldLink(h, m0, root)
    requires Childless(h, m0, root)
    ensures |MarkBlock(m0, h.Index(root))| == |m0| && Exact(h, m0, MarkBlock(m0, h.Index(root)), root)
  {
    LoneRoot(h, m0, root);
    var r := h.Index(root);
    assert Path(h, m0, r, r, 0);
    forall j | j in h.blocks && Reaches(h, m0, root, j) ensures Marked(MarkBlock(m0, r), j) {
      LoneReaches(h, m0, root, j);
    }
  }

  /** A search that has left the root along a stale link and ends exactly is on a marked block, and goes on. */
  lemma ChaseStep(h: Layout, m0: Mem, root: nat, w: nat, n: nat)
    requires HeapOk(h, m0) && CleanMarks(h, m0) && GoodRef(h, root) && ShouldLink(h, m0, root)
    requires Childless(h, m0, root) && w != 0
    requires HeapOk(h, MarkBlock(m0, h.Index(root)))
    requires EndsExactlyIn(h, m0, Search(MarkBlock(m0, h.Index(root)), w, root), root, n)
    ensures n > 0 && GoodRef(h, w) && (Marked(m0, h.Index(w)) || h.Index(w) == h.Index(root))
    ensures EndsExactlyIn(h, m0, Search(MarkBlock(m0, h.Index(root)), Link(m0, h.Index(w)), root), root, n - 1)
  {
    hide TurnOf, Exact, MarkBlock, CleanMarks, HeapOk, NothingToQueue, EndsExactlyIn, Onward, SamePayloads;
    HeapPlaced(h, m0);
    var m := MarkBlock(m0, h.Index(root));
    LoneRoot(h, m0, root);
    ChaseGood(h, m0, m, w, root, n);
    var i := h.Index(w);
    if !Marked(m, i) { ChaseStranger(h, m0, root, w, n); }
    MarkAgain(m, i);
    IdleTurn(h, m, w, root);
    OneTurnLater(h, m0, m, w, root, root, n);
  }

  lemma ChaseStranger(h: Layout, m0: Mem, root: nat, w: nat, n: nat)
    requires HeapOk(h, m0) && CleanMarks(h, m0) && GoodRef(h, root) && ShouldLink(h, m0, root)
    requires Childless(h, m0, root) && w != 0 && GoodRef(h, w)
    requires HeapOk(h, MarkBlock(m0, h.Index(root)))
    requires EndsExactlyIn(h, m0, Search(MarkBlock(m0, h.Index(root)), w, root), root, n)
    ensures Marked(MarkBlock(m0, h.Index(root)), h.Index(w))
  {
    hide TurnOf, Exact, MarkBlock, CleanMarks, HeapOk, NothingToQueue, Onward, SamePayloads;
    HeapPlaced(h, m0);
    var m := MarkBlock(m0, h.Index(root));
    LoneRoot(h, m0, root);
    if !Marked(m, h.Index(w)) {
      ChaseGood(h, m0, m, w, root, n);
      StrangerMarked(h, m, w, root, n);
      NotExact(h, m0, root, TurnsOf(h, Search(m, w, root), n).m, h.Index(w));
    }
  }

  lemma {:induction false} ChaseOnly(h: Layout, m0: Mem, root: nat, w: nat, n: nat) returns (k: nat)
    requires HeapOk(h, m0) && CleanMarks(h, m0) && GoodRef(h, root) && ShouldLink(h, m0, root)
    requires Childless(h, m0, root)
    requires HeapOk(h, MarkBlock(m0, h.Index(root)))
    requires EndsExactlyIn(h, m0, Search(MarkBlock(m0, h.Index(root)), w, root), root, n)
    ensures LeadsOut(h, m0, root, w, k)
    decreases n
  {
    hide TurnOf, Exact, MarkBlock, CleanMarks, HeapOk, EndsExactlyIn, Childless;
    HeapPlaced(h, m0);
    k := 0;
    if w != 0 {
      ChaseStep(h, m0, root, w, n);
      var j := ChaseOnly(h, m0, root, Link(m0, h.Index(w)), n - 1);
      k := j + 1;
    }
  }

  lemma ChaseGood(h: Layout, m0: Mem, m: Mem, w: nat, root: nat, n: nat)
    requires HeapOk(h, m0) && HeapOk(h, m) && GoodRef(h, root) && w != 0
    requires EndsExactlyIn(h, m0, Search(m, w, root), root, n)
    ensures n > 0 && GoodRef(h, w)
  {
    hide TurnOf, Exact, HeapOk;
  }

  /** What the next turn is on stays marked. */
  lemma StrangerMarked(h: Layout, m: Mem, w: nat, last: nat, n: nat)
    requires HeapOk(h, m) && GoodRef(h, w) && GoodRef(h, last) && n > 0
    requires w != 0 && TurnsOf(h, Search(m, w, last), n).Search?
    ensures var m' := TurnsOf(h, Search(m, w, last), n).m; |m'| == |m| && Marked(m', h.Index(w))
  {
    hide TurnOf, HeapOk, MarkBlock;
    var next := TurnOf(h, m, w, last);
    TurnMarks(h, m, w, last);
    TurnsOnward(h, next, n - 1);
  }

  lemma TurnMarks(h: Layout, m: Mem, w: nat, last: nat)
    requires HeapOk(h, m) && GoodRef(h, w) && GoodRef(h, last)
    ensures Marked(TurnOf(h, m, w, last).m, h.Index(w))
  {
    hide SamePayloads, OnlyHeaders;
    MarkBlockEffect(h, m, h.Index(w));
  }

  lemma NotExact(h: Layout, m0: Mem, root: nat, m: Mem, i: nat)
    requires HeapOk(h, m0) && CleanMarks(h, m0) && GoodRef(h, root) && ShouldLink(h, m0, root)
    requires Childless(h, m0, root) && i in h.blocks && i != h.Index(root) && !Marked(m0, i)
    requires |m| == |m0| && Marked(m, i)
    ensures !Exact(h, m0, m, root) && !Reaches(h, m0, root, i)
  {
    if Reaches(h, m0, root, i) { LoneReaches(h, m0, root, i); }
  }

  // ---------- the exact condition ----------

  /** `mark_traverse` on an unmarked root ends, having followed nothing but references to blocks and having marked
      exactly what the root reaches, if and only if the root's link word is harmless. */
  lemma TraversalExactIff(h: Layout, m: Mem, root: nat)
    requires HeapOk(h, m) && CleanMarks(h, m) && GoodRef(h, root) && ShouldLink(h, m, root)
    ensures EndsExactly(h, m, Search(m, root, root), root) <==> RootLinkOk(h, m, root)
  {
    hide TurnOf, Exact, HeapOk, CleanMarks, LeadsOut, FreshChild, EndsExactlyIn;
    HeapPlaced(h, m);
    if FirstHopOk(h, m, root) {
      QueueEnds(h, m, root);
    } else {
      FirstTurnIdle(h, m, root);
      var m1, w := MarkBlock(m, h.Index(root)), Link(m, h.Index(root));
      if k: nat :| LeadsOut(h, m, root, w, k) {
        ChaseEnds(h, m, root, w, k);
        OneTurnEarlier(h, m, m, root, root, root);
      }
      if EndsExactly(h, m, Search(m, root, root), root) {
        var n: nat :| EndsExactlyIn(h, m, Search(m, root, root), root, n);
        OneTurnLater(h, m, m, root, root, root, n);
        var k := ChaseOnly(h, m, root, w, n - 1);
      }
    }
  }

  lemma OneTurnLater(h: Layout, m0: Mem, m: Mem, cur: nat, last: nat, root: nat, n: nat)
    requires HeapOk(h, m0) && HeapOk(h, m) && GoodRef(h, cur) && GoodRef(h, last)
    requires EndsExactlyIn(h, m0, Search(m, cur, last), root, n)
    ensures n > 0 && EndsExactlyIn(h, m0, TurnOf(h, m, cur, last), root, n - 1)
  {
    hide TurnOf, Exact, HeapOk;
  }

  lemma FirstTurnIdle(h: Layout, m: Mem, root: nat)
    requires HeapOk(h, m) && CleanMarks(h, m) && GoodRef(h, root) && ShouldLink(h, m, root)
    requires !FirstHopOk(h, m, root)
    ensures Childless(h, m, root) && HeapOk(h, MarkBlock(m, h.Index(root)))
    ensures TurnOf(h, m, root, root) == Search(MarkBlock(m, h.Index(root)), Link(m, h.Index(root)), root)
  {
    LoneRoot(h, m, root);
    IdleTurn(h, m, root, root);
  }

  lemma QueueEnds(h: Layout, m: Mem, root: nat)
    requires HeapOk(h, m) && CleanMarks(h, m) && GoodRef(h, root) && ShouldLink(h, m, root)
    requires FirstHopOk(h, m, root)
    ensures EndsExactly(h, m, Search(m, root, root), root)
  {
    hide Searching, Turning, Known, MarkBlock, Exact, HeapOk, CleanMarks, TurnOf, Edge, Unseen, FirstHopOk, EndsExactly;
    HeapPlaced(h, m);
    var i := h.Index(root);
    StartFirstTurn(h, m, root);
    var longer := TurnSearches(h, m, m, root, root, root, {i}, [root], Link(m, i));
    FirstLinkZero(h, m, root, longer, Link(m, i));
    var next := TurnOf(h, m, root, root);
    SearchEnds(h, m, next.m, next.cur, next.last, root, {i}, longer[1..]);
    OneTurnEarlier(h, m, m, root, root, root);
  }

  /** Where the first turn leads: out of the loop, or to a child it has just queued, if and only if the root's link
      word was zero or there is a child to queue. */
  lemma FirstHop(h: Layout, m: Mem, root: nat)
    requires HeapOk(h, m) && CleanMarks(h, m) && GoodRef(h, root) && ShouldLink(h, m, root)
    ensures var next := TurnOf(h, m, root, root).cur;
      FirstHopOk(h, m, root) <==> next == 0 || (h.IsRef(next) && FreshChild(h, m, root, h.Index(next)))
  {
    hide Searching, Turning, Known, MarkBlock, HeapOk, CleanMarks, TurnOf, Edge, Unseen, FirstHopOk, FreshChild;
    HeapPlaced(h, m);
    var i := h.Index(root);
    StartFirstTurn(h, m, root);
    var longer := TurnSearches(h, m, m, root, root, root, {i}, [root], Link(m, i));
    var next := TurnOf(h, m, root, root);
    FirstTurnExact(h, m, next.m, root, longer, next.cur);
  }

  /** The failing side: a childless root whose link names another unmarked block sends the loop there. If the
      loop ends, that block is marked, although the root does not reach it. */
  lemma StaleLinkMarks(h: Layout, m: Mem, root: nat, n: nat)
    requires HeapOk(h, m) && CleanMarks(h, m) && GoodRef(h, root) && ShouldLink(h, m, root)
    requires Childless(h, m, root)
    requires var w := Link(m, h.Index(root));
      GoodRef(h, w) && h.Index(w) != h.Index(root) && !Marked(m, h.Index(w))
    requires Over(h, Search(m, root, root), n)
    ensures var j := h.Index(Link(m, h.Index(root))); var m' := TurnsOf(h, Search(m, root, root), n).m;
      |m'| == |m| && Marked(m', j) && !Reaches(h, m, root, j) && !Exact(h, m, m', root)
  {
    hide TurnOf, Exact, HeapOk, CleanMarks;
    HeapPlaced(h, m);
    var w := Link(m, h.Index(root));
    NoHop(h, m, root, w);
    FirstTurnIdle(h, m, root);
    LoneRoot(h, m, root);
    var m1 := MarkBlock(m, h.Index(root));
    StrangerMarked(h, m1, w, root, n - 1);
    NotExact(h, m, root, TurnsOf(h, Search(m, root, root), n).m, h.Index(w));
  }

  lemma NoHop(h: Layout, m: Mem, root: nat, w: nat)
    requires h.Placed(|m|) && GoodRef(h, root) && Childless(h, m, root) && w == Link(m, h.Index(root)) && GoodRef(h, w)
    ensures w != 0 && !FirstHopOk(h, m, root)
  {
  }

  /** A childless root whose link names itself never leaves the loop. */
  lemma SelfLinkNeverEnds(h: Layout, m: Mem, root: nat, n: nat)
    requires HeapOk(h, m) && CleanMarks(h, m) && GoodRef(h, root) && ShouldLink(h, m, root)
    requires Childless(h, m, root)
    requires var w := Link(m, h.Index(root)); GoodRef(h, w) && h.Index(w) == h.Index(root)
    ensures !Over(h, Search(m, root, root), n)
  {
    hide TurnOf, HeapOk, CleanMarks;
    HeapPlaced(h, m);
    var w := Link(m, h.Index(root));
    NoHop(h, m, root, w);
    FirstTurnIdle(h, m, root);
    LoneRoot(h, m, root);
    if n > 0 { Circles(h, MarkBlock(m, h.Index(root)), w, root, n - 1); }
  }

  lemma {:induction false} Circles(h: Layout, m: Mem, w: nat, last: nat, n: nat)
    requires HeapOk(h, m) && GoodRef(h, w) && GoodRef(h, last) && w != 0
    requires Marked(m, h.Index(w)) && Link(m, h.Index(w)) == w && NothingToQueue(h, m, h.Index(w))
    ensures !Over(h, Search(m, w, last), n)
    decreases n
  {
    hide TurnOf;
    MarkAgain(m, h.Index(w));
    IdleTurn(h, m, w, last);
    if n > 0 { Circles(h, m, w, last, n - 1); }
  }

  /** Two symbols, neither marked, one's stale link naming the other. */
  const TWO_SYMBOLS := Layout(1600, 1728, {4, 10}, {})
  const STALE_LINK: Mem := [0, 1686, 0, 16, 0, 0, 0, 0, 0, 16, 0, 0, 0, 0, 0, 0]

  /** Tracing the first of them marks the second, which it does not reach. */
  lemma StaleLinkExample()
    ensures var h, m, root := TWO_SYMBOLS, STALE_LINK, 1638;
      && HeapOk(h, m) && CleanMarks(h, m) && GoodRef(h, root) && ShouldLink(h, m, root) && h.Index(root) == 4
      && Over(h, Search(m, root, root), 2)
      && var m' := TurnsOf(h, Search(m, root, root), 2).m;
         |m'| == |m| && Marked(m', 10) && !Reaches(h, m, root, 10)
  {
    var h, m, root, next := TWO_SYMBOLS, STALE_LINK, 1638, 1686;
    assert h.Index(root) == 4 && h.Index(next) == 10;
    assert Childless(h, m, root);
    assert TurnOf(h, m, root, root) == Search(MarkBlock(m, 4), next, root);
    var m1 := MarkBlock(m, 4);
    assert TurnOf(h, m1, next, root) == Search(MarkBlock(m1, 10), 0, root);
    var second := Search(m1, next, root);
    assert TurnsOf(h, second, 1) == TurnsOf(h, TurnOf(h, m1, next, root), 0);
    assert TurnsOf(h, Search(m, root, root), 2) == TurnsOf(h, second, 1);
    StaleLinkMarks(h, m, root, 2);
  }

  // ---------- several roots ----------

  /** Nothing to do, or a harmless link word. */
  ghost predicate RootOk(h: Layout, m: Mem, root: nat)
    requires HeapOk(h, m) && h.RefOk(root)
  {
    ShouldLink(h, m, root) ==> RootLinkOk(h, m, root)
  }

  /** A number of turns after which the traversal of a root that must be linked is over. */
  ghost function TurnsNeeded(h: Layout, m: Mem, root: nat): (n: nat)
    requires HeapOk(h, m) && CleanMarks(h, m) && GoodRef(h, root) && ShouldLink(h, m, root) && RootLinkOk(h, m, root)
    ensures EndsExactlyIn(h, m, Search(m, root, root), root, n)
  {
    TraversalExactIff(h, m, root);
    var n: nat :| EndsExactlyIn(h, m, Search(m, root, root), root, n);
    n
  }

  /** The memory `mark_traverse` leaves. */
  ghost function MarkedBy(h: Layout, m: Mem, root: nat): (m': Mem)
    requires HeapOk(h, m) && CleanMarks(h, m) && h.RefOk(root) && RootOk(h, m, root)
    ensures HeapOk(h, m') && CleanMarks(h, m') && SamePayloads(h, m, m') && OnlyHeaders(h, m, m')
    ensures Exact(h, m, m', root)
  {
    if ShouldLink(h, m, root) then
      var n := TurnsNeeded(h, m, root);
      TurnsOnward(h, Search(m, root, root), n);
      MarksStayClean(h, m, TurnsOf(h, Search(m, root, root), n).m, root);
      TurnsOf(h, Search(m, root, root), n).m
    else
      NothingToMark(h, m, root);
      m
  }

  /** Each root in turn is fine for the marks the ones before it leave. */
  ghost predicate RootsOk(h: Layout, m: Mem, roots: seq<nat>)
    requires HeapOk(h, m) && CleanMarks(h, m)
    decreases |roots|
  {
    roots == [] || (h.RefOk(roots[0]) && RootOk(h, m, roots[0]) && RootsOk(h, MarkedBy(h, m, roots[0]), roots[1..]))
  }

  /** All link words of unmarked blocks are zero. */
  ghost predicate Unlinked(h: Layout, m: Mem)
    requires h.Placed(|m|)
  {
    forall i | i in h.blocks && Flags(m, i) == 0 :: Link(m, i) == 0
  }

  lemma StaysUnlinked(h: Layout, m: Mem, root: nat)
    requires HeapOk(h, m) && CleanMarks(h, m) && h.RefOk(root) && Unlinked(h, m)
    ensures RootOk(h, m, root) && Unlinked(h, MarkedBy(h, m, root))
  {
    RootLinkZero(h, m, root);
    UnmarkedStayUnlinked(h, m, MarkedBy(h, m, root), root);
  }

  /** With such link words any roots will do. */
  lemma {:induction false} UnlinkedRootsOk(h: Layout, m: Mem, roots: seq<nat>)
    requires HeapOk(h, m) && CleanMarks(h, m) && Unlinked(h, m)
    requires forall k | 0 <= k < |roots| :: h.RefOk(roots[k])
    ensures RootsOk(h, m, roots)
    decreases |roots|
  {
    if roots != [] {
      StaysUnlinked(h, m, roots[0]);
      UnlinkedRootsOk(h, MarkedBy(h, m, roots[0]), roots[1..]);
    }
  }
}
