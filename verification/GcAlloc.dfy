/** The bump allocator. */
module GcAlloc {
  import opened Gc
  import opened GcTraversal

  // ---------- the allocator ----------

  const HEADER_SIZE: nat := 24
  const PAIR_SIZE: nat := 16

  function Size(m: Mem, i: nat): nat requires 3 <= i <= |m| { m[i - 1] }

  /** `align_ptr` to 16 bytes: the least multiple of 16 that is not below `x`. */
  function AlignUp(x: nat): (r: nat)
    ensures r % 16 == 0 && x <= r < x + 16
  {
    var off := x % 16;
    x + if off > 0 then 16 - off else 0
  }

  /** What bump allocation keeps: every payload starts at a 16-byte boundary right behind its header and
      ends where its size word says, no block overlaps another, header and payload alike, and everything
      lies below `allocend` and strictly before `end`. */
  ghost predicate Allocated(h: Layout, m: Mem, end: nat) {
    && h.base % 8 == 0 && end <= h.base + 8 * |m| && h.base <= h.allocend && h.pairs <= h.blocks
    && (forall i | i in h.blocks ::
          && 3 <= i <= |m| && (h.base + 8 * i) % 16 == 0
          && h.base + 8 * i + Size(m, i) <= h.allocend && h.base + 8 * i + Size(m, i) < end)
    && (forall i, j | i in h.blocks && j in h.blocks && i < j :: 8 * i + Size(m, i) <= 8 * (j - 3))
    && forall i | i in h.pairs :: Size(m, i) == PAIR_SIZE
  }

  lemma AllocatedIsPlaced(h: Layout, m: Mem, end: nat)
    requires Allocated(h, m, end)
    ensures h.Placed(|m|)
  {
  }

  /** A word that names nothing in the space not yet allocated. */
  ghost predicate NotFree(h: Layout, end: nat, w: nat) {
    h.IsHeapType(w) ==> !(h.allocend <= h.Address(w) < end)
  }

  ghost predicate NoneFree(h: Layout, m: Mem, end: nat)
    requires h.Placed(|m|)
  {
    forall i | i in h.pairs :: NotFree(h, end, Car(m, i)) && NotFree(h, end, Cdr(m, i))
  }

  /** The layout once a block of `n` bytes is placed at the address `p`. */
  function Grown(h: Layout, p: nat, n: nat, pair: bool): Layout
    requires h.base <= p
  {
    var i := (p - h.base) / 8;
    h.(allocend := p + n, blocks := h.blocks + {i}, pairs := if pair then h.pairs + {i} else h.pairs)
  }

  lemma GrownKeepsRefs(h: Layout, p: nat, n: nat, pair: bool, end: nat, w: nat)
    requires h.base <= h.allocend <= p && p + n < end && NotFree(h, end, w) && h.RefOk(w)
    requires forall i | i in h.blocks :: h.base + 8 * i <= h.allocend && (h.base + 8 * i) % 16 == 0
    requires h.base + 8 * ((p - h.base) / 8) == p && h.allocend < p
    ensures Grown(h, p, n, pair).RefOk(w) && NotFree(Grown(h, p, n, pair), end, w)
    ensures Grown(h, p, n, pair).IsRef(w) <==> h.IsRef(w)
  {
  }

  /** Where `gc_alloc` puts the payload: at the first boundary that leaves three words for the header. */
  function BlockEnd(h: Layout): (p: nat)
    ensures p % 16 == 0 && h.allocend + 3 * 8 <= p < h.allocend + 3 * 8 + 16
  {
    AlignUp(h.allocend + HEADER_SIZE)
  }

  /** The header `gc_alloc` writes: flags and size, but no link. */
  function WriteHeader(m: Mem, i: nat, n: nat): Mem
    requires 3 <= i <= |m|
  {
    m[i - 2 := 0][i - 1 := n]
  }

  lemma WordOf(base: nat, p: nat)
    requires base % 8 == 0 && p % 16 == 0 && base <= p
    ensures base + 8 * ((p - base) / 8) == p
  {
    var b, q := base / 8, p / 16;
    assert base == 8 * b && p == 16 * q;
    assert p - base == 8 * (2 * q - b);
  }

  lemma NewIndex(h: Layout, m: Mem, end: nat, n: nat)
    requires Allocated(h, m, end) && BlockEnd(h) + n < end
    ensures var i := (BlockEnd(h) - h.base) / 8;
      && h.base + 8 * i == BlockEnd(h) && 3 <= i <= |m| && i !in h.blocks
      && forall j | j in h.blocks :: 8 * j + Size(m, j) <= 8 * (i - 3)
  {
    hide BlockEnd;
    WordOf(h.base, BlockEnd(h));
    var i := (BlockEnd(h) - h.base) / 8;
    assert forall j | j in h.blocks :: 8 * j + Size(m, j) <= 8 * (i - 3);
  }

  /** Block `j` keeps its link and its mark, and a pair its payload. */
  ghost predicate KeptAt(h: Layout, m: Mem, m': Mem, j: nat) {
    && |m'| == |m| && 3 <= j <= |m| && Flags(m', j) == Flags(m, j) && Link(m', j) == Link(m, j)
    && (j in h.pairs ==> j + 1 < |m| && m'[j] == m[j] && m'[j + 1] == m[j + 1])
  }

  ghost predicate Kept(h: Layout, m: Mem, m': Mem) {
    |m'| == |m| && forall j | j in h.blocks :: KeptAt(h, m, m', j)
  }

  lemma HeaderWritten(h: Layout, m: Mem, end: nat, n: nat, j: nat)
    requires Allocated(h, m, end) && BlockEnd(h) + n < end && j in h.blocks
    ensures var i := (BlockEnd(h) - h.base) / 8;
      && 3 <= i <= |m| && Size(WriteHeader(m, i, n), j) == Size(m, j)
      && KeptAt(h, m, WriteHeader(m, i, n), j)
  {
    NewIndex(h, m, end, n);
  }

  /** A new block overlaps nothing, and every old header and payload stays as it was. */
  lemma AllocKeeps(h: Layout, m: Mem, end: nat, n: nat)
    requires Allocated(h, m, end) && BlockEnd(h) + n < end
    ensures var i := (BlockEnd(h) - h.base) / 8;
      && 3 <= i <= |m| && Allocated(Grown(h, BlockEnd(h), n, false), WriteHeader(m, i, n), end)
  {
    hide BlockEnd, WriteHeader;
    NewIndex(h, m, end, n);
    var i := (BlockEnd(h) - h.base) / 8;
    var m' := WriteHeader(m, i, n);
    assert |m'| == |m| && Size(m', i) == n by { HeaderOf(m, i, n); }
    forall j | j in h.blocks ensures Size(m', j) == Size(m, j) { HeaderWritten(h, m, end, n, j); }
  }

  lemma HeaderOf(m: Mem, i: nat, n: nat)
    requires 3 <= i <= |m|
    ensures |WriteHeader(m, i, n)| == |m|
    ensures Size(WriteHeader(m, i, n), i) == n && Flags(WriteHeader(m, i, n), i) == 0
    ensures Link(WriteHeader(m, i, n), i) == Link(m, i)
  {
  }

  /** A heap the collector can run on: well placed, nothing dangling, marks closed. */
  ghost predicate Tidy(h: Layout, m: Mem, end: nat) {
    Allocated(h, m, end) && HeapOk(h, m) && NoneFree(h, m, end) && CleanMarks(h, m)
  }

  /** The pair's two words written, its layout declared. */
  function WritePair(m: Mem, i: nat, car: nat, cdr: nat): Mem
    requires i + 2 <= |m|
  {
    m[i := car][i + 1 := cdr]
  }

  lemma PairWritten(h: Layout, m: Mem, end: nat, i: nat, car: nat, cdr: nat, j: nat)
    requires Allocated(h, m, end) && i in h.blocks && Size(m, i) == PAIR_SIZE && j in h.blocks
    ensures i + 2 <= |m| && |WritePair(m, i, car, cdr)| == |m|
    ensures var m' := WritePair(m, i, car, cdr);
      && m'[i] == car && m'[i + 1] == cdr
      && 3 <= j <= |m| && Size(m', j) == Size(m, j)
      && (j != i || i !in h.pairs ==> KeptAt(h, m, m', j))
  {
  }

  lemma AllocKept(h: Layout, m: Mem, end: nat, n: nat)
    requires Allocated(h, m, end) && BlockEnd(h) + n < end
    ensures var i := (BlockEnd(h) - h.base) / 8; 3 <= i <= |m| && Kept(h, m, WriteHeader(m, i, n))
  {
    hide BlockEnd, WriteHeader, KeptAt;
    NewIndex(h, m, end, n);
    var i := (BlockEnd(h) - h.base) / 8;
    HeaderOf(m, i, n);
    forall j | j in h.blocks ensures KeptAt(h, m, WriteHeader(m, i, n), j) { HeaderWritten(h, m, end, n, j); }
  }

  /** A reference to an old block still is one, and none names the new block. */
  lemma GrownRefs(h: Layout, m: Mem, m': Mem, end: nat, n: nat, j: nat)
    requires Allocated(h, m, end) && HeapOk(h, m) && NoneFree(h, m, end) && BlockEnd(h) + n < end
    requires Kept(h, m, m') && j in h.pairs
    ensures var h' := Grown(h, BlockEnd(h), n, false);
      && j + 1 < |m'| && h'.RefOk(m'[j]) && h'.RefOk(m'[j + 1])
      && NotFree(h', end, m'[j]) && NotFree(h', end, m'[j + 1])
      && (h'.IsRef(m'[j]) <==> h.IsRef(m[j])) && (h'.IsRef(m'[j + 1]) <==> h.IsRef(m[j + 1]))
  {
    hide BlockEnd, Layout.RefOk, NotFree, Layout.IsRef;
    NewIndex(h, m, end, n);
    GrownKeepsRefs(h, BlockEnd(h), n, false, end, Car(m, j));
    GrownKeepsRefs(h, BlockEnd(h), n, false, end, Cdr(m, j));
  }

  /** Same edges, and no edge leaves a block that is not an old pair. */
  lemma GrownTidy(h: Layout, m: Mem, m': Mem, end: nat, n: nat)
    requires Tidy(h, m, end) && BlockEnd(h) + n < end && Kept(h, m, m')
    requires var h' := Grown(h, BlockEnd(h), n, false); Allocated(h', m', end)
    requires var i := (BlockEnd(h) - h.base) / 8; 3 <= i <= |m'| && Flags(m', i) == 0
    ensures var h' := Grown(h, BlockEnd(h), n, false);
      Tidy(h', m', end) && forall j: nat, k: nat :: Edge(h', m', j, k) ==> Edge(h, m, j, k)
  {
    hide BlockEnd, Layout.RefOk, NotFree, Layout.IsRef, Allocated, Layout.Index;
    var h' := Grown(h, BlockEnd(h), n, false);
    AllocatedIsPlaced(h', m', end);
    forall j | j in h.pairs
      ensures j + 1 < |m'| && h'.RefOk(m'[j]) && h'.RefOk(m'[j + 1])
      ensures NotFree(h', end, m'[j]) && NotFree(h', end, m'[j + 1])
      ensures (h'.IsRef(m'[j]) <==> h.IsRef(m[j])) && (h'.IsRef(m'[j + 1]) <==> h.IsRef(m[j + 1]))
    {
      GrownRefs(h, m, m', end, n, j);
    }
    assert HeapOk(h', m') && NoneFree(h', m', end);
    forall j: nat, k: nat | Edge(h', m', j, k) ensures Edge(h, m, j, k) {
      SameIndex(h, h', m[j], k);
      SameIndex(h, h', m[j + 1], k);
    }
  }

  lemma SameIndex(h: Layout, h': Layout, w: nat, k: nat)
    requires h.base == h'.base && (h.IsRef(w) <==> h'.IsRef(w))
    ensures h.IsRef(w) ==> h.Index(w) == h'.Index(w)
  {
  }

  /** An allocation keeps the heap tidy, and nothing refers to the new block. */
  lemma AllocTidy(h: Layout, m: Mem, end: nat, n: nat)
    requires Tidy(h, m, end) && BlockEnd(h) + n < end
    ensures var i := (BlockEnd(h) - h.base) / 8; var h' := Grown(h, BlockEnd(h), n, false);
      && 3 <= i <= |m| && Tidy(h', WriteHeader(m, i, n), end)
      && forall j: nat :: !Edge(h', WriteHeader(m, i, n), j, i)
  {
    hide BlockEnd, WriteHeader, Allocated, NoneFree, CleanMarks, Edge;
    NewIndex(h, m, end, n);
    AllocKeeps(h, m, end, n);
    AllocKept(h, m, end, n);
    var i := (BlockEnd(h) - h.base) / 8;
    HeaderOf(m, i, n);
    GrownTidy(h, m, WriteHeader(m, i, n), end, n);
    forall j: nat ensures !Edge(h, m, j, i) {
      if Edge(h, m, j, i) { EdgeLands(h, m, j, i); }
    }
  }

  lemma EdgeLands(h: Layout, m: Mem, j: nat, i: nat)
    requires HeapOk(h, m) && Edge(h, m, j, i)
    ensures i in h.blocks
  {
  }

  /** A word that may be stored in the new pair `i`. */
  ghost predicate PairOk(h: Layout, end: nat, i: nat, w: nat) {
    h.RefOk(w) && NotFree(h, end, w) && (h.IsRef(w) ==> h.Index(w) != i)
  }

  lemma PairKept(h: Layout, m: Mem, end: nat, i: nat, car: nat, cdr: nat)
    requires Allocated(h, m, end) && i in h.blocks && i !in h.pairs && Size(m, i) == PAIR_SIZE
    ensures i + 2 <= |m|
    ensures var m' := WritePair(m, i, car, cdr);
      && m'[i] == car && m'[i + 1] == cdr && Kept(h, m, m')
      && Allocated(h.(pairs := h.pairs + {i}), m', end)
  {
    hide WritePair, KeptAt;
    PairWritten(h, m, end, i, car, cdr, i);
    var m' := WritePair(m, i, car, cdr);
    forall j | j in h.blocks
      ensures 3 <= j <= |m| && Size(m', j) == Size(m, j) && KeptAt(h, m, m', j)
    {
      PairWritten(h, m, end, i, car, cdr, j);
    }
  }

  /** Making `i` a pair changes no reference but those to `i`, and there are none. */
  lemma PairRefs(h: Layout, i: nat, w: nat)
    requires h.RefOk(w) && (h.IsRef(w) ==> h.Index(w) != i)
    ensures h.(pairs := h.pairs + {i}).RefOk(w)
  {
  }

  /** A fresh block of the right size becomes a pair. */
  lemma PairTidy(h: Layout, m: Mem, end: nat, i: nat, car: nat, cdr: nat)
    requires Tidy(h, m, end) && i in h.blocks && i !in h.pairs && Size(m, i) == PAIR_SIZE && Flags(m, i) == 0
    requires forall j: nat :: !Edge(h, m, j, i)
    requires PairOk(h, end, i, car) && PairOk(h, end, i, cdr)
    ensures i + 2 <= |m| && Tidy(h.(pairs := h.pairs + {i}), WritePair(m, i, car, cdr), end)
  {
    hide WritePair, Allocated, Layout.RefOk;
    PairKept(h, m, end, i, car, cdr);
    var h', m' := h.(pairs := h.pairs + {i}), WritePair(m, i, car, cdr);
    AllocatedIsPlaced(h', m', end);
    forall j | j in h'.pairs ensures h'.RefOk(m'[j]) && h'.RefOk(m'[j + 1]) {
      assert !Edge(h, m, j, i);
      PairRefs(h, i, m'[j]);
      PairRefs(h, i, m'[j + 1]);
    }
    assert NoneFree(h', m', end);
    forall j, k | j in h.blocks && Marked(m', j) && Edge(h', m', j, k) ensures k in h.blocks && Marked(m', k) {
      assert Edge(h, m, j, k);
    }
  }

  lemma NewPair(h: Layout, m: Mem, end: nat, car: nat, cdr: nat)
    requires Tidy(h, m, end) && BlockEnd(h) + PAIR_SIZE < end
    requires h.RefOk(car) && h.RefOk(cdr) && NotFree(h, end, car) && NotFree(h, end, cdr)
    ensures var p := BlockEnd(h); var i := (p - h.base) / 8;
      && 3 <= i && i + 2 <= |m| && i !in h.blocks && h.base + 8 * i == p
      && Tidy(Grown(h, p, PAIR_SIZE, true), WritePair(WriteHeader(m, i, PAIR_SIZE), i, car, cdr), end)
  {
    hide BlockEnd, WriteHeader, WritePair, Layout.RefOk, NotFree, Edge, HeapOk, NoneFree, CleanMarks;
    var p := BlockEnd(h);
    var i := (p - h.base) / 8;
    NewIndex(h, m, end, PAIR_SIZE);
    AllocTidy(h, m, end, PAIR_SIZE);
    HeaderOf(m, i, PAIR_SIZE);
    NewWord(h, m, end, car);
    NewWord(h, m, end, cdr);
    var h', m' := Grown(h, p, PAIR_SIZE, false), WriteHeader(m, i, PAIR_SIZE);
    PairTidy(h', m', end, i, car, cdr);
    assert h'.(pairs := h'.pairs + {i}) == Grown(h, p, PAIR_SIZE, true);
  }

  lemma NewWord(h: Layout, m: Mem, end: nat, w: nat)
    requires Allocated(h, m, end) && BlockEnd(h) + PAIR_SIZE < end && h.RefOk(w) && NotFree(h, end, w)
    ensures PairOk(Grown(h, BlockEnd(h), PAIR_SIZE, false), end, (BlockEnd(h) - h.base) / 8, w)
  {
    hide BlockEnd;
    NewIndex(h, m, end, PAIR_SIZE);
    GrownKeepsRefs(h, BlockEnd(h), PAIR_SIZE, false, end, w);
  }

  // ---------- zeroed memory ----------

  /** Memory that has never been handed out is zero, and so are the link words of unmarked blocks. */
  ghost predicate Blank(h: Layout, m: Mem)
    requires h.Placed(|m|)
  {
    && (forall k | 0 <= k < |m| && h.allocend <= h.base + 8 * k :: m[k] == 0)
    && Unlinked(h, m)
  }

  lemma AllocBlank(h: Layout, m: Mem, end: nat, n: nat)
    requires Allocated(h, m, end) && BlockEnd(h) + n < end && h.Placed(|m|) && Blank(h, m)
    ensures var i := (BlockEnd(h) - h.base) / 8; var h' := Grown(h, BlockEnd(h), n, false);
      && 3 <= i <= |m| && h'.Placed(|m|) && Blank(h', WriteHeader(m, i, n))
  {
    hide BlockEnd, WriteHeader;
    NewIndex(h, m, end, n);
    AllocKeeps(h, m, end, n);
    AllocKept(h, m, end, n);
    var i := (BlockEnd(h) - h.base) / 8;
    var h', m' := Grown(h, BlockEnd(h), n, false), WriteHeader(m, i, n);
    HeaderOf(m, i, n);
    AllocatedIsPlaced(h', m', end);
    assert Link(m', i) == m[i - 3] == 0;
    forall k | 0 <= k < |m'| && h'.allocend <= h'.base + 8 * k ensures m'[k] == 0 { HeaderBelow(m, i, n, k); }
  }

  lemma HeaderBelow(m: Mem, i: nat, n: nat, k: nat)
    requires 3 <= i <= |m| && i <= k < |m|
    ensures WriteHeader(m, i, n)[k] == m[k]
  {
  }

  lemma PairBlank(h: Layout, m: Mem, end: nat, i: nat, car: nat, cdr: nat)
    requires Allocated(h, m, end) && h.Placed(|m|) && Blank(h, m)
    requires i in h.blocks && i !in h.pairs && Size(m, i) == PAIR_SIZE
    ensures var h' := h.(pairs := h.pairs + {i});
      && i + 2 <= |m| && h'.Placed(|m|) && Blank(h', WritePair(m, i, car, cdr))
  {
    PairKept(h, m, end, i, car, cdr);
    AllocatedIsPlaced(h.(pairs := h.pairs + {i}), WritePair(m, i, car, cdr), end);
  }

  lemma NewPairBlank(h: Layout, m: Mem, end: nat, car: nat, cdr: nat)
    requires Tidy(h, m, end) && BlockEnd(h) + PAIR_SIZE < end && Blank(h, m)
    requires h.RefOk(car) && h.RefOk(cdr) && NotFree(h, end, car) && NotFree(h, end, cdr)
    ensures var p := BlockEnd(h); var i := (p - h.base) / 8; var h' := Grown(h, p, PAIR_SIZE, true);
      && 3 <= i && i + 2 <= |m| && h'.Placed(|m|)
      && Blank(h', WritePair(WriteHeader(m, i, PAIR_SIZE), i, car, cdr))
  {
    hide BlockEnd, WriteHeader, WritePair, HeapOk, NoneFree, CleanMarks, Blank;
    var i := (BlockEnd(h) - h.base) / 8;
    NewIndex(h, m, end, PAIR_SIZE);
    AllocKeeps(h, m, end, PAIR_SIZE);
    AllocBlank(h, m, end, PAIR_SIZE);
    HeaderOf(m, i, PAIR_SIZE);
    var h' := Grown(h, BlockEnd(h), PAIR_SIZE, false);
    PairBlank(h', WriteHeader(m, i, PAIR_SIZE), end, i, car, cdr);
    assert h'.(pairs := h'.pairs + {i}) == Grown(h, BlockEnd(h), PAIR_SIZE, true);
  }

  /** Marking writes the links and flags of blocks only: the bump allocator's view of the heap is as it was. */
  lemma MarkedTidy(h: Layout, m: Mem, m': Mem, end: nat)
    requires Tidy(h, m, end) && HeapOk(h, m') && CleanMarks(h, m')
    requires SamePayloads(h, m, m') && OnlyHeaders(h, m, m')
    ensures Tidy(h, m', end)
    ensures Blank(h, m) && Unlinked(h, m') ==> Blank(h, m')
  {
    hide HeapOk, CleanMarks;
    SizesStay(h, m, m', end);
    FreeStays(h, m, m', end);
  }

  lemma SizesStay(h: Layout, m: Mem, m': Mem, end: nat)
    requires Allocated(h, m, end) && OnlyHeaders(h, m, m')
    ensures forall i | i in h.blocks :: Size(m', i) == Size(m, i)
  {
  }

  lemma FreeStays(h: Layout, m: Mem, m': Mem, end: nat)
    requires Allocated(h, m, end) && OnlyHeaders(h, m, m')
    ensures forall k | 0 <= k < |m| && h.allocend <= h.base + 8 * k :: m'[k] == m[k]
  {
  }

  /** So a traversal from any root leaves a blank heap blank. */
  lemma MarkBlank(h: Layout, m: Mem, end: nat, root: nat)
    requires Allocated(h, m, end) && HeapOk(h, m) && CleanMarks(h, m) && h.RefOk(root) && Blank(h, m)
    ensures RootOk(h, m, root) && Blank(h, MarkedBy(h, m, root))
    ensures Tidy(h, m, end) ==> Tidy(h, MarkedBy(h, m, root), end)
  {
    StaysUnlinked(h, m, root);
    FreeStays(h, m, MarkedBy(h, m, root), end);
    if Tidy(h, m, end) { MarkedTidy(h, m, MarkedBy(h, m, root), end); }
  }
}
