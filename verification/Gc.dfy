/** The collector's mark phase: a graph search whose queue is threaded through the block headers. */
module Gc {

  const FLAG_MARKED: nat := 1
  const FLAG_GREY: nat := 2
  const TYPE_PAIR: nat := 1

  // ---------- the heap as words ----------

  /** Word `i` of memory has address `base + 8 * i`. A block is named by the index of its payload's first
      word; the three words before it hold the link, the flags and the size. A pair's payload is its car
      and its cdr. `blocks` and `pairs` describe what has been allocated. */
  datatype Layout = Layout(base: nat, allocend: nat, blocks: set<nat>, pairs: set<nat>) {

    /** `is_heap_type`. */
    predicate IsHeapType(w: nat) { w % 4 != 0 && w % 256 != 255 }

    /** `get_heap_tagged_value`: the address under the four tag bits. */
    function Address(w: nat): nat { w - w % 16 }

    /** `is_gc_ptr`. */
    predicate InHeap(w: nat) { base <= Address(w) < allocend }

    predicate IsRef(w: nat) { IsHeapType(w) && InHeap(w) }

    /** The block a reference names. */
    function Index(w: nat): nat
      requires InHeap(w)
    {
      (Address(w) - base) / 8
    }

    /** References point at payload starts, and a pair tag means a pair. */
    ghost predicate RefOk(w: nat) {
      IsRef(w) ==> Index(w) in blocks && (w % 16 == TYPE_PAIR <==> Index(w) in pairs)
    }

    /** Headers and pair payloads lie in memory and do not overlap. */
    ghost predicate Placed(size: nat) {
      && pairs <= blocks
      && (forall i | i in blocks :: 3 <= i <= size && (i in pairs ==> i + 2 <= size))
      && forall i, j | i in blocks && j in blocks && i < j :: i + 3 <= j && (i in pairs ==> i + 5 <= j)
    }
  }

  type Mem = seq<nat>

  function Link(m: Mem, i: nat): nat requires 3 <= i <= |m| { m[i - 3] }
  function Flags(m: Mem, i: nat): nat requires 3 <= i <= |m| { m[i - 2] }
  function Car(m: Mem, i: nat): nat requires i < |m| { m[i] }
  function Cdr(m: Mem, i: nat): nat requires i + 1 < |m| { m[i + 1] }

  predicate Marked(m: Mem, i: nat)
    requires 3 <= i <= |m|
  {
    Flags(m, i) % 2 == 1
  }

  ghost predicate HeapOk(h: Layout, m: Mem) {
    && h.Placed(|m|)
    && forall i | i in h.pairs :: h.RefOk(Car(m, i)) && h.RefOk(Cdr(m, i))
  }

  /** The blocks a block refers to: only pairs refer to anything. */
  ghost predicate Edge(h: Layout, m: Mem, i: nat, j: nat)
    requires h.Placed(|m|)
  {
    && i in h.pairs
    && ((h.IsRef(Car(m, i)) && h.Index(Car(m, i)) == j) || (h.IsRef(Cdr(m, i)) && h.Index(Cdr(m, i)) == j))
  }

  ghost predicate Path(h: Layout, m: Mem, i: nat, j: nat, n: nat)
    requires h.Placed(|m|)
    decreases n
  {
    if n == 0 then i == j else exists k :: Path(h, m, i, k, n - 1) && Edge(h, m, k, j)
  }

  /** What a value reaches: nothing unless it is a reference into the heap. */
  ghost predicate Reaches(h: Layout, m: Mem, w: nat, j: nat)
    requires h.Placed(|m|)
  {
    h.IsRef(w) && exists n: nat :: Path(h, m, h.Index(w), j, n)
  }

  ghost predicate Closed(h: Layout, m: Mem, s: set<nat>)
    requires h.Placed(|m|)
  {
    forall i, j | i in s && Edge(h, m, i, j) :: j in s
  }

  lemma {:induction false} PathStaysIn(h: Layout, m: Mem, s: set<nat>, i: nat, j: nat, n: nat)
    requires h.Placed(|m|) && Closed(h, m, s) && i in s && Path(h, m, i, j, n)
    ensures j in s
    decreases n
  {
    if n > 0 {
      var k :| Path(h, m, i, k, n - 1) && Edge(h, m, k, j);
      PathStaysIn(h, m, s, i, k, n - 1);
    }
  }

  /** Same payloads: only header words may differ. */
  ghost predicate SamePayloads(h: Layout, m: Mem, m': Mem)
    requires h.Placed(|m|)
  {
    && |m'| == |m|
    && forall i | i in h.pairs :: m'[i] == m[i] && m'[i + 1] == m[i + 1]
  }

  /** Every word that is not the link or the flags of a block is as it was. */
  ghost predicate OnlyHeaders(h: Layout, m: Mem, m': Mem) {
    && |m'| == |m|
    && forall k | 0 <= k < |m| && m'[k] != m[k] :: k + 3 in h.blocks || k + 2 in h.blocks
  }

  /** A tagged address is followed if and only if it lies in the allocated part of the heap; an integer never is. */
  lemma TaggedAddress(h: Layout, p: nat, tag: nat)
    requires p % 16 == 0 && tag < 16
    ensures h.IsRef(p + tag) ==> tag % 4 != 0 && h.base <= p < h.allocend && h.Index(p + tag) == (p - h.base) / 8
    ensures tag % 4 != 0 && h.base <= p < h.allocend && (p + tag) % 256 != 255 ==> h.IsRef(p + tag)
  {
  }

  /** The test on the low byte keeps out no immediate: a character, a truth value, the empty list and a run type, with
      the low bytes they have, are taken for references if and only if their payload lies in the heap. */
  lemma ImmediateIsRef(h: Layout, payload: nat, low: nat)
    requires low in {0x0F, 0x2F, 0x4F, 0x8F, 0xCF}
    ensures h.IsRef(256 * payload + low) <==> h.base <= 256 * payload + low - 15 < h.allocend
    ensures !h.IsRef(256 * payload + 0xFF)
  {
    var w := 256 * payload + low;
    assert w % 256 == low && w % 16 == 15 && w % 4 == 3;
  }

  // ---------- the operations on headers ----------

  function SetLink(m: Mem, i: nat, w: nat): (r: Mem)
    requires 3 <= i <= |m|
    ensures |r| == |m|
  {
    m[i - 3 := w]
  }

  function SetFlags(m: Mem, i: nat, f: nat): (r: Mem)
    requires 3 <= i <= |m|
    ensures |r| == |m|
  {
    m[i - 2 := f]
  }

  /** `gc_mark_value` on a reference: set the mark bit. */
  function MarkBlock(m: Mem, i: nat): Mem
    requires 3 <= i <= |m|
  {
    SetFlags(m, i, if Marked(m, i) then Flags(m, i) else Flags(m, i) + FLAG_MARKED)
  }

  /** `link_end`: chain `next` behind `end`, grey and last. */
  function LinkEnd(h: Layout, m: Mem, end: nat, next: nat): Mem
    requires h.InHeap(end) && 3 <= h.Index(end) <= |m| && h.InHeap(next) && 3 <= h.Index(next) <= |m|
  {
    SetLink(SetFlags(SetLink(m, h.Index(end), next), h.Index(next), FLAG_GREY), h.Index(next), 0)
  }

  /** `should_link`. */
  predicate ShouldLink(h: Layout, m: Mem, w: nat)
    requires h.InHeap(w) ==> 3 <= h.Index(w) <= |m| || !h.IsRef(w)
  {
    h.IsRef(w) && Flags(m, h.Index(w)) == 0
  }

  lemma HeadersApart(h: Layout, m: Mem, i: nat, j: nat)
    requires h.Placed(|m|) && i in h.blocks && j in h.blocks
    ensures i != j ==> i - 3 != j - 2 && i - 2 != j - 3
    ensures j in h.pairs ==> i - 3 !in {j, j + 1} && i - 2 !in {j, j + 1}
  {
  }

  lemma SetFlagsEffect(h: Layout, m: Mem, i: nat, f: nat)
    requires HeapOk(h, m) && i in h.blocks
    ensures var m' := SetFlags(m, i, f);
      && HeapOk(h, m') && SamePayloads(h, m, m') && OnlyHeaders(h, m, m')
      && Flags(m', i) == f && Link(m', i) == Link(m, i)
      && forall j | j in h.blocks && j != i :: Flags(m', j) == Flags(m, j) && Link(m', j) == Link(m, j)
  {
    forall j | j in h.blocks ensures i - 2 != j - 3 { HeadersApart(h, m, i, j); }
  }

  lemma SetLinkEffect(h: Layout, m: Mem, i: nat, w: nat)
    requires HeapOk(h, m) && i in h.blocks
    ensures var m' := SetLink(m, i, w);
      && HeapOk(h, m') && SamePayloads(h, m, m') && OnlyHeaders(h, m, m')
      && Link(m', i) == w && Flags(m', i) == Flags(m, i)
      && forall j | j in h.blocks && j != i :: Flags(m', j) == Flags(m, j) && Link(m', j) == Link(m, j)
  {
    forall j | j in h.blocks ensures i - 3 != j - 2 { HeadersApart(h, m, i, j); }
  }

  lemma LinkEndEffect(h: Layout, m: Mem, end: nat, next: nat)
    requires HeapOk(h, m) && h.InHeap(end) && h.Index(end) in h.blocks && h.InHeap(next) && h.Index(next) in h.blocks
    requires h.Index(end) != h.Index(next)
    ensures var m' := LinkEnd(h, m, end, next); var e, n := h.Index(end), h.Index(next);
      && HeapOk(h, m') && SamePayloads(h, m, m') && OnlyHeaders(h, m, m')
      && Link(m', e) == next && Flags(m', e) == Flags(m, e)
      && Link(m', n) == 0 && Flags(m', n) == FLAG_GREY
      && forall j | j in h.blocks && j != e && j != n :: Flags(m', j) == Flags(m, j) && Link(m', j) == Link(m, j)
  {
    hide SamePayloads, OnlyHeaders, SetLink, SetFlags, Link, Flags;
    var e, n := h.Index(end), h.Index(next);
    var m1 := SetLink(m, e, next);
    var m2 := SetFlags(m1, n, FLAG_GREY);
    SetLinkEffect(h, m, e, next);
    SetFlagsEffect(h, m1, n, FLAG_GREY);
    SetLinkEffect(h, m2, n, 0);
    SamePayloadsTwice(h, m, m1, m2);
    SamePayloadsTwice(h, m, m2, SetLink(m2, n, 0));
  }

  lemma SamePayloadsTwice(h: Layout, a: Mem, b: Mem, c: Mem)
    requires h.Placed(|a|) && SamePayloads(h, a, b) && SamePayloads(h, b, c)
    requires OnlyHeaders(h, a, b) && OnlyHeaders(h, b, c)
    ensures SamePayloads(h, a, c) && OnlyHeaders(h, a, c)
  {
    forall k | 0 <= k < |a| && c[k] != a[k] ensures k + 3 in h.blocks || k + 2 in h.blocks {
      assert b[k] != a[k] || c[k] != b[k];
    }
  }

  // ---------- the queue ----------

  /** A list of distinct blocks, each but the last linked to the next. */
  ghost predicate Linked(h: Layout, m: Mem, queue: seq<nat>)
    requires h.Placed(|m|)
  {
    && (forall k | 0 <= k < |queue| :: h.IsRef(queue[k]) && h.RefOk(queue[k]))
    && (forall k, l | 0 <= k < l < |queue| :: h.Index(queue[k]) != h.Index(queue[l]))
    && (forall k | 0 <= k < |queue| - 1 :: Link(m, h.Index(queue[k])) == queue[k + 1])
  }

  ghost predicate Queued(h: Layout, queue: seq<nat>, i: nat) {
    exists k | 0 <= k < |queue| :: h.InHeap(queue[k]) && h.Index(queue[k]) == i
  }

  /** What was marked before the traversal. */
  ghost predicate Before(h: Layout, m0: Mem, i: nat)
    requires h.Placed(|m0|)
  {
    i in h.blocks && Marked(m0, i)
  }

  /** Each block is old, done, waiting, or untouched, and its header says which. */
  ghost predicate Coloured(h: Layout, m0: Mem, m: Mem, done: set<nat>, waiting: seq<nat>)
    requires h.Placed(|m0|) && |m| == |m0|
  {
    forall i | i in h.blocks ::
      if Before(h, m0, i) then i !in done && !Queued(h, waiting, i) && Flags(m, i) == Flags(m0, i)
      else if i in done then !Queued(h, waiting, i) && Marked(m, i)
      else if Queued(h, waiting, i) then Flags(m, i) == FLAG_GREY
      else Flags(m, i) == 0 && Link(m, i) == Link(m0, i)
  }

  /** Everything met so far is reachable from the root. */
  ghost predicate Met(h: Layout, m0: Mem, root: nat, done: set<nat>, waiting: seq<nat>)
    requires h.Placed(|m0|)
  {
    && done <= h.blocks
    && forall i | i in h.blocks && (i in done || Queued(h, waiting, i)) :: Reaches(h, m0, root, i)
  }

  ghost predicate Known(h: Layout, m0: Mem, done: set<nat>, waiting: seq<nat>, j: nat)
    requires h.Placed(|m0|)
  {
    Before(h, m0, j) || j in done || Queued(h, waiting, j)
  }

  /** What the blocks in `done` refer to, `except` aside, is known. */
  ghost predicate Followed(h: Layout, m0: Mem, done: set<nat>, waiting: seq<nat>, except: nat)
    requires h.Placed(|m0|)
  {
    forall i, j | i in done && i != except && Edge(h, m0, i, j) :: Known(h, m0, done, waiting, j)
  }

  /** In the middle of a turn: `queue` still starts with the block being processed, which is done. While
      it is the whole queue its link is `alone`. */
  ghost predicate Turning(
    h: Layout, m0: Mem, m: Mem, root: nat, done: set<nat>, queue: seq<nat>, alone: nat) {
    && HeapOk(h, m0) && HeapOk(h, m) && SamePayloads(h, m0, m) && OnlyHeaders(h, m0, m)
    && queue != [] && Linked(h, m, queue) && h.Index(queue[0]) in done
    && Coloured(h, m0, m, done, queue[1..])
    && Met(h, m0, root, done, queue[1..])
    && Followed(h, m0, done, queue[1..], h.Index(queue[0]))
    && Link(m, h.Index(queue[|queue| - 1])) == (if |queue| > 1 then 0 else alone)
  }

  lemma QueuedAppend(h: Layout, queue: seq<nat>, w: nat, i: nat)
    requires h.InHeap(w)
    ensures Queued(h, queue + [w], i) <==> Queued(h, queue, i) || h.Index(w) == i
  {
    if Queued(h, queue, i) {
      var k :| 0 <= k < |queue| && h.InHeap(queue[k]) && h.Index(queue[k]) == i;
      assert (queue + [w])[k] == queue[k];
    }
    assert (queue + [w])[|queue|] == w;
  }

  lemma EdgeReaches(h: Layout, m: Mem, root: nat, i: nat, j: nat)
    requires h.Placed(|m|) && Reaches(h, m, root, i) && Edge(h, m, i, j)
    ensures Reaches(h, m, root, j)
  {
    var n: nat :| Path(h, m, h.Index(root), i, n);
    assert Path(h, m, h.Index(root), j, n + 1);
  }

  // ---------- one turn ----------

  /** A word with no colour yet. */
  lemma UncolouredIsUnknown(
    h: Layout, m0: Mem, m: Mem, done: set<nat>, waiting: seq<nat>, i: nat)
    requires HeapOk(h, m0) && |m| == |m0| && Coloured(h, m0, m, done, waiting) && i in h.blocks
    ensures Flags(m, i) == 0 <==> !Known(h, m0, done, waiting, i)
  {
  }

  lemma LinkStepColours(h: Layout, m0: Mem, m: Mem, done: set<nat>, queue: seq<nat>, w: nat)
    requires HeapOk(h, m0) && HeapOk(h, m) && |m| == |m0| && h.RefOk(w)
    requires queue != [] && Linked(h, m, queue) && h.Index(queue[0]) in done
    requires Coloured(h, m0, m, done, queue[1..]) && ShouldLink(h, m, w)
    ensures Coloured(h, m0, LinkEnd(h, m, queue[|queue| - 1], w), done, queue[1..] + [w])
    ensures h.Index(queue[|queue| - 1]) != h.Index(w)
  {
    hide HeapOk, LinkEnd;
    var last := queue[|queue| - 1];
    UncolouredIsUnknown(h, m0, m, done, queue[1..], h.Index(w));
    HeapPlaced(h, m);
    LastIsColoured(h, m0, m, done, queue);
    LinkEndEffect(h, m, last, w);
    forall i | i in h.blocks
      ensures Queued(h, queue[1..] + [w], i) <==> Queued(h, queue[1..], i) || h.Index(w) == i
    {
      QueuedAppend(h, queue[1..], w, i);
    }
  }

  lemma HeapPlaced(h: Layout, m: Mem)
    requires HeapOk(h, m)
    ensures h.Placed(|m|)
  {
  }

  /** The end of the queue is done or waiting, so changing its link hides no colour. */
  lemma LastIsColoured(h: Layout, m0: Mem, m: Mem, done: set<nat>, queue: seq<nat>)
    requires h.Placed(|m|) && queue != [] && Linked(h, m, queue) && h.Index(queue[0]) in done
    ensures var e := h.Index(queue[|queue| - 1]); e in done || Queued(h, queue[1..], e)
  {
    if |queue| > 1 { assert queue[1..][|queue| - 2] == queue[|queue| - 1]; }
  }

  lemma LinkStepLinks(h: Layout, m0: Mem, m: Mem, done: set<nat>, queue: seq<nat>, w: nat)
    requires HeapOk(h, m0) && HeapOk(h, m) && |m| == |m0| && h.RefOk(w)
    requires queue != [] && Linked(h, m, queue) && h.Index(queue[0]) in done
    requires Coloured(h, m0, m, done, queue[1..]) && ShouldLink(h, m, w)
    ensures Linked(h, LinkEnd(h, m, queue[|queue| - 1], w), queue + [w])
  {
    hide LinkEnd, Coloured;
    var last := queue[|queue| - 1];
    UncolouredIsUnknown(h, m0, m, done, queue[1..], h.Index(w));
    forall k | 0 <= k < |queue| ensures h.Index(queue[k]) != h.Index(w) {
      if k > 0 { assert queue[1..][k - 1] == queue[k]; }
    }
    LinkEndEffect(h, m, last, w);
  }

  lemma LinkStep(h: Layout, m0: Mem, m: Mem, root: nat, done: set<nat>, queue: seq<nat>, alone: nat, w: nat)
    requires Turning(h, m0, m, root, done, queue, alone) && h.RefOk(w) && ShouldLink(h, m, w)
    requires Edge(h, m0, h.Index(queue[0]), h.Index(w))
    ensures Turning(h, m0, LinkEnd(h, m, queue[|queue| - 1], w), root, done, queue + [w], alone)
  {
    hide Coloured, Linked, HeapOk, OnlyHeaders, LinkEnd, Met, Followed, Edge;
    var rest := queue[1..];
    var last := queue[|queue| - 1];
    assert (queue + [w])[1..] == rest + [w];
    HeapPlaced(h, m0);
    HeapPlaced(h, m);
    LinkedIn(h, m, queue);
    LinkStepColours(h, m0, m, done, queue, w);
    LinkStepLinks(h, m0, m, done, queue, w);
    LinkEndEffect(h, m, last, w);
    SamePayloadsTwice(h, m0, m, LinkEnd(h, m, last, w));
    MetAppend(h, m0, root, done, rest, w, h.Index(queue[0]));
    FollowedAppend(h, m0, done, rest, w, h.Index(queue[0]));
  }

  /** `try_link` on a word of the block being processed. */
  lemma TryLinkStep(h: Layout, m0: Mem, m: Mem, root: nat, done: set<nat>, queue: seq<nat>, alone: nat, w: nat)
    requires Turning(h, m0, m, root, done, queue, alone) && h.RefOk(w)
    requires h.IsRef(w) ==> Edge(h, m0, h.Index(queue[0]), h.Index(w))
    ensures if ShouldLink(h, m, w) then
              && Turning(h, m0, LinkEnd(h, m, queue[|queue| - 1], w), root, done, queue + [w], alone)
              && Queued(h, queue[1..] + [w], h.Index(w))
            else h.IsRef(w) ==> Known(h, m0, done, queue[1..], h.Index(w))
  {
    hide Coloured, Linked, HeapOk, OnlyHeaders, LinkEnd, Met, Followed, Edge, Known;
    HeapPlaced(h, m);
    if h.IsRef(w) {
      UncolouredIsUnknown(h, m0, m, done, queue[1..], h.Index(w));
    }
    if ShouldLink(h, m, w) {
      LinkStep(h, m0, m, root, done, queue, alone, w);
      QueuedAppend(h, queue[1..], w, h.Index(w));
    }
  }

  lemma LinkedIn(h: Layout, m: Mem, queue: seq<nat>)
    requires h.Placed(|m|) && Linked(h, m, queue)
    ensures forall k | 0 <= k < |queue| :: h.IsRef(queue[k]) && h.Index(queue[k]) in h.blocks
  {
  }

  lemma MetAppend(h: Layout, m0: Mem, root: nat, done: set<nat>, waiting: seq<nat>, w: nat, from: nat)
    requires h.Placed(|m0|) && Met(h, m0, root, done, waiting) && from in done
    requires h.IsRef(w) && Edge(h, m0, from, h.Index(w))
    ensures Met(h, m0, root, done, waiting + [w])
  {
    EdgeReaches(h, m0, root, from, h.Index(w));
    forall i | i in h.blocks && Queued(h, waiting + [w], i) ensures Reaches(h, m0, root, i) {
      QueuedAppend(h, waiting, w, i);
    }
  }

  lemma FollowedAppend(h: Layout, m0: Mem, done: set<nat>, waiting: seq<nat>, w: nat, except: nat)
    requires h.Placed(|m0|) && Followed(h, m0, done, waiting, except) && h.InHeap(w)
    ensures Followed(h, m0, done, waiting + [w], except)
  {
    forall i, j | i in done && i != except && Edge(h, m0, i, j) ensures Known(h, m0, done, waiting + [w], j) {
      QueuedAppend(h, waiting, w, j);
    }
  }

  // ---------- the loop ----------

  /** Between turns. */
  ghost predicate Searching(h: Layout, m0: Mem, m: Mem, root: nat, done: set<nat>, queue: seq<nat>) {
    && HeapOk(h, m0) && HeapOk(h, m) && SamePayloads(h, m0, m) && OnlyHeaders(h, m0, m)
    && Linked(h, m, queue)
    && Coloured(h, m0, m, done, queue)
    && Met(h, m0, root, done, queue)
    && FollowedAll(h, m0, done, queue)
    && (queue != [] ==> Link(m, h.Index(queue[|queue| - 1])) == 0)
  }

  ghost predicate FollowedAll(h: Layout, m0: Mem, done: set<nat>, waiting: seq<nat>)
    requires h.Placed(|m0|)
  {
    forall i, j | i in done && Edge(h, m0, i, j) :: Known(h, m0, done, waiting, j)
  }

  lemma MarkBlockEffect(h: Layout, m: Mem, i: nat)
    requires HeapOk(h, m) && i in h.blocks
    ensures var m' := MarkBlock(m, i);
      && HeapOk(h, m') && SamePayloads(h, m, m') && OnlyHeaders(h, m, m')
      && Marked(m', i) && Flags(m', i) / 2 == Flags(m, i) / 2 && Link(m', i) == Link(m, i)
      && forall j | j in h.blocks && j != i :: Flags(m', j) == Flags(m, j) && Link(m', j) == Link(m, j)
  {
    SetFlagsEffect(h, m, i, if Marked(m, i) then Flags(m, i) else Flags(m, i) + FLAG_MARKED);
  }

  lemma QueuedRest(h: Layout, queue: seq<nat>, i: nat)
    requires queue != [] && h.InHeap(queue[0])
    ensures Queued(h, queue, i) <==> Queued(h, queue[1..], i) || h.Index(queue[0]) == i
  {
    if Queued(h, queue, i) {
      var k :| 0 <= k < |queue| && h.InHeap(queue[k]) && h.Index(queue[k]) == i;
      if k > 0 { assert queue[1..][k - 1] == queue[k]; }
    }
    if Queued(h, queue[1..], i) {
      var k :| 0 <= k < |queue[1..]| && h.InHeap(queue[1..][k]) && h.Index(queue[1..][k]) == i;
      assert queue[k + 1] == queue[1..][k];
    }
  }

  lemma HeadNotInRest(h: Layout, m: Mem, queue: seq<nat>)
    requires h.Placed(|m|) && queue != [] && Linked(h, m, queue)
    ensures !Queued(h, queue[1..], h.Index(queue[0]))
  {
  }

  lemma MarkColours(h: Layout, m0: Mem, m: Mem, done: set<nat>, queue: seq<nat>)
    requires HeapOk(h, m0) && HeapOk(h, m) && |m| == |m0|
    requires queue != [] && Linked(h, m, queue) && Coloured(h, m0, m, done, queue)
    ensures var i := h.Index(queue[0]); Coloured(h, m0, MarkBlock(m, i), done + {i}, queue[1..])
  {
    hide MarkBlock, Linked, HeapOk;
    HeapPlaced(h, m0);
    HeapPlaced(h, m);
    LinkedIn(h, m, queue);
    MarkBlockEffect(h, m, h.Index(queue[0]));
    HeadNotInRest(h, m, queue);
    forall j | j in h.blocks
      ensures Queued(h, queue, j) <==> Queued(h, queue[1..], j) || h.Index(queue[0]) == j
    {
      QueuedRest(h, queue, j);
    }
  }

  lemma MarkLinks(h: Layout, m: Mem, queue: seq<nat>)
    requires HeapOk(h, m) && queue != [] && Linked(h, m, queue)
    ensures Linked(h, MarkBlock(m, h.Index(queue[0])), queue)
  {
    hide MarkBlock, HeapOk;
    HeapPlaced(h, m);
    MarkBlockEffect(h, m, h.Index(queue[0]));
  }

  lemma HeadMoves(h: Layout, m0: Mem, root: nat, done: set<nat>, queue: seq<nat>)
    requires h.Placed(|m0|) && queue != [] && h.IsRef(queue[0]) && h.Index(queue[0]) in h.blocks
    requires Met(h, m0, root, done, queue) && FollowedAll(h, m0, done, queue)
    ensures var i := h.Index(queue[0]);
      && Met(h, m0, root, done + {i}, queue[1..]) && Followed(h, m0, done + {i}, queue[1..], i)
  {
    forall j ensures Queued(h, queue, j) <==> Queued(h, queue[1..], j) || h.Index(queue[0]) == j {
      QueuedRest(h, queue, j);
    }
  }

  /** A turn starts: the head is marked. */
  lemma StartTurn(h: Layout, m0: Mem, m: Mem, root: nat, done: set<nat>, queue: seq<nat>)
    requires Searching(h, m0, m, root, done, queue) && queue != []
    ensures var i := h.Index(queue[0]); i in h.blocks && Turning(h, m0, MarkBlock(m, i), root, done + {i}, queue, 0)
  {
    hide MarkBlock, Linked, HeapOk, Coloured, Met, Followed, FollowedAll, OnlyHeaders;
    HeapPlaced(h, m0);
    HeapPlaced(h, m);
    LinkedIn(h, m, queue);
    MarkBlockEffect(h, m, h.Index(queue[0]));
    SamePayloadsTwice(h, m0, m, MarkBlock(m, h.Index(queue[0])));
    MarkColours(h, m0, m, done, queue);
    MarkLinks(h, m, queue);
    HeadMoves(h, m0, root, done, queue);
  }

  /** Flags start out clear or marked, and what is marked is closed under car and cdr. */
  ghost predicate CleanMarks(h: Layout, m: Mem)
    requires h.Placed(|m|)
  {
    && (forall i | i in h.blocks :: Flags(m, i) == 0 || Marked(m, i))
    && (forall i, j | i in h.blocks && Marked(m, i) && Edge(h, m, i, j) :: j in h.blocks && Marked(m, j))
  }

  /** The first turn starts: the root is the whole queue, not yet grey. */
  lemma StartFirstTurn(h: Layout, m: Mem, root: nat)
    requires HeapOk(h, m) && CleanMarks(h, m) && h.RefOk(root) && ShouldLink(h, m, root)
    ensures var i := h.Index(root); Turning(h, m, MarkBlock(m, i), root, {i}, [root], Link(m, i))
  {
    var i := h.Index(root);
    MarkBlockEffect(h, m, i);
    assert Path(h, m, i, i, 0);
    assert forall j :: !Queued(h, [], j);
    assert [root][1..] == [];
  }

  /** A turn ends: the head's link leads to the next block, or to what it was when nothing followed. */
  lemma EndTurn(h: Layout, m0: Mem, m: Mem, root: nat, done: set<nat>, queue: seq<nat>, alone: nat)
    requires Turning(h, m0, m, root, done, queue, alone)
    requires forall j | Edge(h, m0, h.Index(queue[0]), j) :: Known(h, m0, done, queue[1..], j)
    ensures Searching(h, m0, m, root, done, queue[1..])
    ensures Link(m, h.Index(queue[0])) == if |queue| > 1 then queue[1] else alone
  {
    hide HeapOk, Coloured, Met, Known, Edge, OnlyHeaders, SamePayloads;
    HeapPlaced(h, m);
    var rest := queue[1..];
    assert Linked(h, m, rest) by {
      forall k | 0 <= k < |rest| ensures rest[k] == queue[k + 1] {}
    }
  }

  /** What a traversal must do: mark what the root reaches, and nothing else. */
  ghost predicate Exact(h: Layout, m0: Mem, m: Mem, root: nat)
    requires h.Placed(|m0|) && |m| == |m0|
  {
    && (forall i | i in h.blocks :: Marked(m, i) <==> Marked(m0, i) || Reaches(h, m0, root, i))
    && (forall i | i in h.blocks && !Marked(m, i) :: Flags(m, i) == 0 && Link(m, i) == Link(m0, i))
  }

  lemma Finished(h: Layout, m0: Mem, m: Mem, root: nat, done: set<nat>)
    requires Searching(h, m0, m, root, done, []) && CleanMarks(h, m0)
    requires h.IsRef(root) && h.Index(root) in done
    ensures Exact(h, m0, m, root)
  {
    assert forall j :: !Queued(h, [], j);
    var before := set i | i in h.blocks && Marked(m0, i);
    var all := before + done;
    assert Closed(h, m0, all);
    forall i | i in h.blocks ensures Marked(m, i) <==> Marked(m0, i) || Reaches(h, m0, root, i) {
      if Reaches(h, m0, root, i) {
        var n: nat :| Path(h, m0, h.Index(root), i, n);
        PathStaysIn(h, m0, all, h.Index(root), i, n);
      }
    }
  }

  // ---------- a whole turn ----------

  /** A child of the root that the first turn will queue. */
  ghost predicate FreshChild(h: Layout, m: Mem, root: nat, j: nat)
    requires h.Placed(|m|) && h.InHeap(root)
  {
    j in h.blocks && j != h.Index(root) && Flags(m, j) == 0 && Edge(h, m, h.Index(root), j)
  }

  /** The root's own link word is written only if something is queued behind it: the first turn leads to a block it
      has queued, or to zero. */
  ghost predicate FirstHopOk(h: Layout, m: Mem, root: nat)
    requires h.Placed(|m|) && h.InHeap(root) && h.Index(root) in h.blocks
  {
    Link(m, h.Index(root)) == 0 || exists j :: FreshChild(h, m, root, j)
  }

  ghost function Unseen(h: Layout, m: Mem): set<nat>
    requires h.Placed(|m|)
  {
    set i | i in h.blocks && Flags(m, i) == 0
  }

  lemma LinkSees(h: Layout, m: Mem, end: nat, w: nat)
    requires HeapOk(h, m) && h.InHeap(end) && h.Index(end) in h.blocks && h.IsRef(w) && h.Index(w) in h.blocks
    requires h.Index(end) != h.Index(w) && ShouldLink(h, m, w)
    ensures LinkEnd(h, m, end, w) != [] && h.Placed(|LinkEnd(h, m, end, w)|)
    ensures |Unseen(h, LinkEnd(h, m, end, w))| == |Unseen(h, m)| - 1
  {
    LinkEndEffect(h, m, end, w);
    assert Unseen(h, LinkEnd(h, m, end, w)) == Unseen(h, m) - {h.Index(w)};
  }

  lemma MarkSees(h: Layout, m: Mem, i: nat)
    requires HeapOk(h, m) && i in h.blocks
    ensures h.Placed(|MarkBlock(m, i)|)
    ensures Unseen(h, MarkBlock(m, i)) == Unseen(h, m) - {i}
  {
    MarkBlockEffect(h, m, i);
  }

  /** The queue after `try_link`, and what that achieves. */
  lemma AfterTry(
    h: Layout, m0: Mem, m: Mem, root: nat, done: set<nat>, queue: seq<nat>, alone: nat, w: nat)
    returns (longer: seq<nat>)
    requires Turning(h, m0, m, root, done, queue, alone) && h.RefOk(w)
    requires h.IsRef(w) ==> Edge(h, m0, h.Index(queue[0]), h.Index(w))
    ensures longer == if ShouldLink(h, m, w) then queue + [w] else queue
    ensures var m' := if ShouldLink(h, m, w) then LinkEnd(h, m, queue[|queue| - 1], w) else m;
      && Turning(h, m0, m', root, done, longer, alone)
      && |Unseen(h, m')| + |longer| == |Unseen(h, m)| + |queue|
    ensures h.IsRef(w) ==> Known(h, m0, done, longer[1..], h.Index(w))
    ensures forall j | Known(h, m0, done, queue[1..], j) :: Known(h, m0, done, longer[1..], j)
    ensures forall k | |queue| <= k < |longer| ::
      h.InHeap(longer[k]) && Edge(h, m0, h.Index(queue[0]), h.Index(longer[k]))
  {
    hide Coloured, Linked, OnlyHeaders, LinkEnd, Met, Followed, Edge, Unseen;
    TryLinkStep(h, m0, m, root, done, queue, alone, w);
    longer := queue;
    if ShouldLink(h, m, w) {
      longer := queue + [w];
      assert longer[1..] == queue[1..] + [w];
      HeapPlaced(h, m);
      LinkedIn(h, m, queue);
      LinkStepApart(h, m0, m, done, queue, w);
      LinkSees(h, m, queue[|queue| - 1], w);
      forall j | Known(h, m0, done, queue[1..], j) ensures Known(h, m0, done, longer[1..], j) {
        QueuedAppend(h, queue[1..], w, j);
      }
    }
  }

  lemma TurningParts(
    h: Layout, m0: Mem, m: Mem, root: nat, done: set<nat>, queue: seq<nat>, alone: nat)
    requires Turning(h, m0, m, root, done, queue, alone)
    ensures HeapOk(h, m0) && HeapOk(h, m) && |m| == |m0|
    ensures h.Placed(|m|) && queue != []
    ensures var i, last := h.Index(queue[0]), queue[|queue| - 1];
      && h.IsRef(last) && h.RefOk(last) && h.Index(last) in h.blocks
      && 3 <= i <= |m|
      && (i in h.pairs ==>
            && i + 1 < |m| && m[i] == m0[i] && m[i + 1] == m0[i + 1] && h.RefOk(m[i]) && h.RefOk(m[i + 1])
            && (h.IsRef(m[i]) ==> Edge(h, m0, i, h.Index(m[i])))
            && (h.IsRef(m[i + 1]) ==> Edge(h, m0, i, h.Index(m[i + 1]))))
      && (i !in h.pairs ==> forall j :: !Edge(h, m0, i, j))
  {
    hide Coloured, Met, Followed, OnlyHeaders;
  }

  lemma EdgesOfPair(h: Layout, m: Mem, i: nat, car: nat, cdr: nat)
    requires h.Placed(|m|) && i in h.pairs && Car(m, i) == car && Cdr(m, i) == cdr
    ensures forall j | Edge(h, m, i, j) ::
      (h.IsRef(car) && j == h.Index(car)) || (h.IsRef(cdr) && j == h.Index(cdr))
  {
  }

  lemma SearchingParts(h: Layout, m0: Mem, m: Mem, root: nat, done: set<nat>, queue: seq<nat>)
    requires Searching(h, m0, m, root, done, queue)
    ensures HeapOk(h, m) && |m| == |m0| && SamePayloads(h, m0, m) && OnlyHeaders(h, m0, m)
    ensures queue != [] ==> h.IsRef(queue[0]) && h.RefOk(queue[0]) && h.Index(queue[0]) in h.blocks && queue[0] != 0
  {
  }

  /** With nothing queued behind the root, its old link was zero. */
  lemma FirstLinkZero(h: Layout, m0: Mem, root: nat, queue: seq<nat>, alone: nat)
    requires HeapOk(h, m0) && h.IsRef(root) && h.RefOk(root) && queue != [] && alone == Link(m0, h.Index(root))
    requires FirstHopOk(h, m0, root)
    requires forall j | Edge(h, m0, h.Index(root), j) :: Known(h, m0, {h.Index(root)}, queue[1..], j)
    ensures |queue| == 1 ==> alone == 0
  {
    if alone != 0 {
      var j :| FreshChild(h, m0, root, j);
      assert Known(h, m0, {h.Index(root)}, queue[1..], j);
      assert Queued(h, queue[1..], j);
    }
  }

  lemma MarksStayClean(h: Layout, m0: Mem, m: Mem, root: nat)
    requires HeapOk(h, m0) && CleanMarks(h, m0) && SamePayloads(h, m0, m) && Exact(h, m0, m, root)
    ensures CleanMarks(h, m)
  {
    forall i, j | i in h.blocks && Marked(m, i) && Edge(h, m, i, j) ensures j in h.blocks && Marked(m, j) {
      assert Edge(h, m0, i, j);
      if Reaches(h, m0, root, i) { EdgeReaches(h, m0, root, i, j); }
    }
  }

  lemma UnmarkedStayUnlinked(h: Layout, m: Mem, m': Mem, w: nat)
    requires HeapOk(h, m) && CleanMarks(h, m) && |m'| == |m| && Exact(h, m, m', w) && CleanMarks(h, m')
    requires forall i | i in h.blocks && Flags(m, i) == 0 :: Link(m, i) == 0
    ensures forall i | i in h.blocks && Flags(m', i) == 0 :: Link(m', i) == 0
  {
  }

  lemma NothingToMark(h: Layout, m: Mem, root: nat)
    requires HeapOk(h, m) && CleanMarks(h, m) && h.RefOk(root) && !ShouldLink(h, m, root)
    ensures Exact(h, m, m, root) && SamePayloads(h, m, m) && OnlyHeaders(h, m, m)
  {
    var marked := set i | i in h.blocks && Marked(m, i);
    assert Closed(h, m, marked);
    forall i | i in h.blocks && Reaches(h, m, root, i) ensures Marked(m, i) {
      var n: nat :| Path(h, m, h.Index(root), i, n);
      PathStaysIn(h, m, marked, h.Index(root), i, n);
    }
  }

  lemma FirstTurnExact(h: Layout, m0: Mem, m: Mem, root: nat, queue: seq<nat>, next: nat)
    requires HeapOk(h, m0) && CleanMarks(h, m0) && h.IsRef(root) && h.RefOk(root)
    requires queue != [] && Searching(h, m0, m, root, {h.Index(root)}, queue[1..])
    requires next == if |queue| > 1 then queue[1] else Link(m0, h.Index(root))
    requires forall j | Edge(h, m0, h.Index(root), j) :: Known(h, m0, {h.Index(root)}, queue[1..], j)
    requires forall k | 1 <= k < |queue| :: h.InHeap(queue[k]) && Edge(h, m0, h.Index(root), h.Index(queue[k]))
    ensures FirstHopOk(h, m0, root) <==> next == 0 || (h.IsRef(next) && FreshChild(h, m0, root, h.Index(next)))
  {
    if |queue| > 1 {
      assert queue[1..][0] == next && Queued(h, queue[1..], h.Index(next));
      assert FreshChild(h, m0, root, h.Index(next));
    } else {
      assert forall j :: !Queued(h, queue[1..], j);
    }
  }

  ghost predicate MarkedFrom(h: Layout, m0: Mem, m: Mem, roots: seq<nat>)
    requires h.Placed(|m0|) && |m| == |m0|
  {
    forall i | i in h.blocks ::
      Marked(m, i) <==> Marked(m0, i) || exists k | 0 <= k < |roots| :: Reaches(h, m0, roots[k], i)
  }

  lemma NoneMarked(h: Layout, m: Mem)
    requires HeapOk(h, m)
    ensures MarkedFrom(h, m, m, []) && SamePayloads(h, m, m) && OnlyHeaders(h, m, m)
  {
  }

  lemma RootLinkZero(h: Layout, m: Mem, w: nat)
    requires HeapOk(h, m) && h.RefOk(w)
    requires forall i | i in h.blocks && Flags(m, i) == 0 :: Link(m, i) == 0
    ensures ShouldLink(h, m, w) ==> FirstHopOk(h, m, w)
  {
  }

  lemma {:induction false} PathSame(h: Layout, m: Mem, m': Mem, i: nat, j: nat, n: nat)
    requires h.Placed(|m|) && SamePayloads(h, m, m') && Path(h, m, i, j, n)
    ensures Path(h, m', i, j, n)
    decreases n
  {
    if n > 0 {
      var k :| Path(h, m, i, k, n - 1) && Edge(h, m, k, j);
      PathSame(h, m, m', i, k, n - 1);
      assert Edge(h, m', k, j);
    }
  }

  lemma ReachesSame(h: Layout, m: Mem, m': Mem, w: nat, j: nat)
    requires h.Placed(|m|) && SamePayloads(h, m, m')
    ensures Reaches(h, m, w, j) <==> Reaches(h, m', w, j)
  {
    if Reaches(h, m, w, j) {
      var n: nat :| Path(h, m, h.Index(w), j, n);
      PathSame(h, m, m', h.Index(w), j, n);
    }
    if Reaches(h, m', w, j) {
      var n: nat :| Path(h, m', h.Index(w), j, n);
      PathSame(h, m', m, h.Index(w), j, n);
    }
  }

  lemma MarkedFromMore(h: Layout, m0: Mem, m: Mem, m': Mem, roots: seq<nat>, w: nat)
    requires HeapOk(h, m0) && SamePayloads(h, m0, m) && |m'| == |m|
    requires MarkedFrom(h, m0, m, roots) && Exact(h, m, m', w)
    ensures MarkedFrom(h, m0, m', roots + [w])
  {
    forall i | i in h.blocks
      ensures Marked(m', i) <==>
        Marked(m0, i) || exists k | 0 <= k < |roots + [w]| :: Reaches(h, m0, (roots + [w])[k], i)
    {
      ReachesSame(h, m0, m, w, i);
      if k :| 0 <= k < |roots| && Reaches(h, m0, roots[k], i) {
        assert (roots + [w])[k] == roots[k];
      }
      assert (roots + [w])[|roots|] == w;
    }
  }

  lemma LinkStepApart(h: Layout, m0: Mem, m: Mem, done: set<nat>, queue: seq<nat>, w: nat)
    requires HeapOk(h, m0) && HeapOk(h, m) && |m| == |m0| && h.RefOk(w)
    requires queue != [] && Linked(h, m, queue) && h.Index(queue[0]) in done
    requires Coloured(h, m0, m, done, queue[1..]) && ShouldLink(h, m, w)
    ensures h.Index(queue[|queue| - 1]) != h.Index(w)
  {
    hide LinkEnd;
    LinkStepColours(h, m0, m, done, queue, w);
  }
}
