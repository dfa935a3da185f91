/** The collector's context: memory updated in place. */
module GcState {
  import opened Gc
  import opened GcTraversal
  import opened GcAlloc

  class Collector {
    const base: nat
    const end: nat
    const mem: array<nat>
    var allocend: nat
    ghost var blocks: set<nat>
    ghost var pairs: set<nat>

    ghost function H(): Layout
      reads this
    {
      Layout(base, allocend, blocks, pairs)
    }

    /** The operations that look only at the heap's bounds. */
    function Bounds(): Layout
      reads this
    {
      Layout(base, allocend, {}, {})
    }

    /** `gc_init` on memory of arbitrary content. If it happens to be zero, that is a blank heap. */
    constructor (base: nat, size: nat)
      requires base % 8 == 0
      ensures H() == Layout(base, AlignUp(base), {}, {}) && end == base + size && fresh(mem)
      ensures Allocated(H(), mem[..], end) && H().Placed(mem.Length)
      ensures (forall k | 0 <= k < mem.Length :: mem[k] == 0) ==> Blank(H(), mem[..])
    {
      this.base, this.end, mem := base, base + size, new nat[(size + 7) / 8];
      allocend, blocks, pairs := AlignUp(base), {}, {};
      new;
    }

    method StoreHeader(i: nat, n: nat)
      requires 3 <= i <= mem.Length
      modifies mem
      ensures mem[..] == WriteHeader(old(mem[..]), i, n)
    {
      mem[i - 2] := 0;
      mem[i - 1] := n;
    }

    /** `gc_alloc`: null if and only if the block would not end before `end`. Otherwise the block is placed at
        the first 16-byte boundary that leaves room for its header. Its flags and size are written; its link word
        stays as it was found. */
    method Alloc(n: nat) returns (p: nat)
      requires Allocated(H(), mem[..], end)
      modifies this, mem
      ensures Allocated(H(), mem[..], end)
      ensures p == 0 <==> BlockEnd(old(H())) + n >= end
      ensures p == 0 ==> H() == old(H()) && mem[..] == old(mem[..])
      ensures p != 0 ==> p == BlockEnd(old(H())) && H() == Grown(old(H()), p, n, false)
      ensures p != 0 ==> var i := (p - base) / 8; 3 <= i <= mem.Length && mem[..] == WriteHeader(old(mem[..]), i, n)
      ensures H().Placed(mem.Length)
      ensures old(H().Placed(mem.Length) && Blank(H(), mem[..])) ==> Blank(H(), mem[..])
    {
      hide Allocated, WriteHeader, AlignUp, Blank;
      ghost var h, m := H(), mem[..];
      AllocatedIsPlaced(h, m, end);
      var blockEnd := AlignUp(allocend + HEADER_SIZE);
      if blockEnd + n >= end { return 0; }
      NewIndex(h, m, end, n);
      AllocKeeps(h, m, end, n);
      if Blank(h, m) { AllocBlank(h, m, end, n); }
      var i := (blockEnd - base) / 8;
      allocend := blockEnd + n;
      StoreHeader(i, n);
      blocks := blocks + {i};
      p := blockEnd;
      AllocatedIsPlaced(H(), mem[..], end);
    }

    method LinkBehind(last: nat, next: nat)
      requires HeapOk(H(), mem[..]) && H().IsRef(last) && H().IsRef(next)
      requires H().Index(last) in blocks && H().Index(next) in blocks
      modifies mem
      ensures mem[..] == LinkEnd(H(), old(mem[..]), last, next)
    {
      var e, n := Bounds().Index(last), Bounds().Index(next);
      mem[e - 3] := next;
      mem[n - 2] := FLAG_GREY;
      mem[n - 3] := 0;
    }

    /** `try_link`. */
    method TryLink(last: nat, next: nat) returns (last': nat)
      requires HeapOk(H(), mem[..]) && GoodRef(H(), last) && H().RefOk(next)
      modifies mem
      ensures (mem[..], last') == TryOf(H(), old(mem[..]), last, next)
    {
      last' := last;
      if Bounds().IsRef(next) {
        var i := Bounds().Index(next);
        if mem[i - 2] == 0 {
          LinkBehind(last, next);
          last' := next;
        }
      }
    }

    /** `gc_mark_value` on a reference. */
    method MarkValue(w: nat)
      requires HeapOk(H(), mem[..]) && H().IsRef(w) && H().Index(w) in blocks
      modifies mem
      ensures mem[..] == MarkBlock(old(mem[..]), H().Index(w))
    {
      var i := Bounds().Index(w);
      if mem[i - 2] % 2 == 0 { mem[i - 2] := mem[i - 2] + FLAG_MARKED; }
    }

    /** `try_link` on the car and the cdr. */
    method QueueChildren(i: nat, last: nat) returns (last': nat)
      requires HeapOk(H(), mem[..]) && i in pairs && GoodRef(H(), last)
      modifies mem
      ensures (mem[..], last') == ChildrenOf(H(), old(mem[..]), i, last)
    {
      hide TryOf;
      ghost var h, m := H(), mem[..];
      PairWords(h, m, i);
      last' := TryLink(last, mem[i]);
      PairWords(h, mem[..], i);
      last' := TryLink(last', mem[i + 1]);
    }

    lemma PairWords(h: Layout, m: Mem, i: nat)
      requires HeapOk(h, m) && i in h.pairs
      ensures i + 1 < |m| && h.RefOk(m[i]) && h.RefOk(m[i + 1])
    {
    }

    lemma RefInBounds(w: nat)
      requires GoodRef(H(), w)
      ensures Bounds().InHeap(w) && Bounds().Index(w) == H().Index(w) && H().Index(w) in blocks
      ensures w % 16 == TYPE_PAIR <==> H().Index(w) in pairs
    {
    }

    /** One turn of the loop: mark the head, queue what it refers to, and follow its link. */
    method Turn(cur: nat, last: nat) returns (cur': nat, last': nat)
      requires HeapOk(H(), mem[..]) && GoodRef(H(), cur) && GoodRef(H(), last)
      modifies mem
      ensures Search(mem[..], cur', last') == TurnOf(H(), old(mem[..]), cur, last)
    {
      hide HeapOk, MarkBlock, ChildrenOf, Onward, Layout.Index, Layout.RefOk;
      ghost var h, m := H(), mem[..];
      HeapPlaced(h, m);
      RefInBounds(cur);
      MarkOnward(h, m, h.Index(cur));
      var i := Bounds().Index(cur);
      MarkValue(cur);
      last' := last;
      OnwardHeap(h, m, mem[..]);
      if cur % 16 == TYPE_PAIR {
        last' := QueueChildren(i, last);
      }
      cur' := mem[i - 3];
    }

    lemma OnwardHeap(h: Layout, m: Mem, m': Mem)
      requires HeapOk(h, m) && Onward(h, m, m')
      ensures HeapOk(h, m') && |m'| == |m|
    {
    }

    /** `mark_traverse`: on exit the marked blocks are the old ones and exactly those the root reaches,
        whatever sharing and cycles there are. No payload has changed. */
    method MarkTraverse(root: nat)
      requires HeapOk(H(), mem[..]) && CleanMarks(H(), mem[..]) && H().RefOk(root)
      requires RootOk(H(), mem[..], root)
      modifies mem
      ensures mem[..] == MarkedBy(H(), old(mem[..]), root)
      ensures HeapOk(H(), mem[..]) && CleanMarks(H(), mem[..])
      ensures SamePayloads(H(), old(mem[..]), mem[..]) && OnlyHeaders(H(), old(mem[..]), mem[..])
      ensures Exact(H(), old(mem[..]), mem[..], root)
    {
      hide MarkBlock, Exact, HeapOk, CleanMarks, RootLinkOk, TurnOf, SamePayloads, OnlyHeaders, TurnsOf, Layout.Index,
        Layout.RefOk;
      ghost var h, m0 := H(), mem[..];
      HeapPlaced(h, m0);
      if Bounds().IsRef(root) {
        RefInBounds(root);
        if mem[Bounds().Index(root) - 2] == 0 {
          var cur, last := root, root;
          ghost var start, needed := Search(m0, root, root), TurnsNeeded(h, m0, root);
          ghost var left := needed;
          while cur != 0
            invariant HeapOk(h, mem[..]) && GoodRef(h, last)
            invariant TurnsOf(h, Search(mem[..], cur, last), left) == TurnsOf(h, start, needed)
            invariant Over(h, start, needed)
            decreases left
          {
            NextTurn(h, Search(mem[..], cur, last), left);
            cur, last := Turn(cur, last);
            left := left - 1;
          }
          NoTurn(h, Search(mem[..], cur, last), left);
        }
      }
    }

    /** The stack loop of `mark_vm`: what is marked afterwards is what was marked or what some live slot
        reaches, whenever each slot in turn is fine for the marks the slots below it leave. */
    method MarkStack(stack: array<nat>, sp: nat)
      requires stack != mem && sp <= stack.Length
      requires HeapOk(H(), mem[..]) && CleanMarks(H(), mem[..]) && RootsOk(H(), mem[..], stack[..sp])
      modifies mem
      ensures HeapOk(H(), mem[..]) && SamePayloads(H(), old(mem[..]), mem[..])
      ensures OnlyHeaders(H(), old(mem[..]), mem[..])
      ensures CleanMarks(H(), mem[..]) && (old(Unlinked(H(), mem[..])) ==> Unlinked(H(), mem[..]))
      ensures MarkedFrom(H(), old(mem[..]), mem[..], stack[..sp])
    {
      hide HeapOk, CleanMarks, Exact, MarkedFrom, SamePayloads, OnlyHeaders, Layout.RefOk, RootOk, MarkedBy, Unlinked;
      ghost var h, m0 := H(), mem[..];
      HeapPlaced(h, m0);
      NoneMarked(h, m0);
      assert stack[..0] == [];
      assert stack[0..sp] == stack[..sp];
      var i := 0;
      while i < sp
        invariant i <= sp && HeapOk(h, mem[..]) && CleanMarks(h, mem[..]) && |mem[..]| == |m0|
        invariant SamePayloads(h, m0, mem[..]) && OnlyHeaders(h, m0, mem[..])
        invariant MarkedFrom(h, m0, mem[..], stack[..i])
        invariant RootsOk(h, mem[..], stack[i..sp])
        invariant Unlinked(h, m0) ==> Unlinked(h, mem[..])
      {
        ghost var m := mem[..];
        assert stack[i..sp][0] == stack[i] && stack[i..sp][1..] == stack[i + 1..sp];
        if Unlinked(h, m) { StaysUnlinked(h, m, stack[i]); }
        MarkTraverse(stack[i]);
        SamePayloadsTwice(h, m0, m, mem[..]);
        assert stack[..i + 1] == stack[..i] + [stack[i]];
        MarkedFromMore(h, m0, m, mem[..], stack[..i], stack[i]);
        i := i + 1;
      }
    }

    /** In a heap that has been blank since it was made every live slot will do, and the heap is blank again. */
    method MarkBlankStack(stack: array<nat>, sp: nat)
      requires stack != mem && sp <= stack.Length
      requires Tidy(H(), mem[..], end) && Blank(H(), mem[..])
      requires forall k | 0 <= k < sp :: H().RefOk(stack[k])
      modifies mem
      ensures Tidy(H(), mem[..], end) && Blank(H(), mem[..])
      ensures MarkedFrom(H(), old(mem[..]), mem[..], stack[..sp])
    {
      hide HeapOk, CleanMarks, Allocated, NoneFree, MarkedFrom, RootsOk, SamePayloads, OnlyHeaders, Layout.RefOk;
      ghost var h, m := H(), mem[..];
      UnlinkedRootsOk(h, m, stack[..sp]);
      MarkStack(stack, sp);
      MarkedTidy(h, m, mem[..], end);
    }

    // ---------- allocation with a collection ----------

    /** `vm_alloc`, collecting from the stack alone: try, collect, try again. Null stands for the panic. Marking
        makes no room, so the second try succeeds no more than the first. */
    method VmAlloc(n: nat, stack: array<nat>, sp: nat) returns (p: nat)
      requires stack != mem && sp <= stack.Length && Tidy(H(), mem[..], end)
      requires BlockEnd(H()) + n >= end ==> RootsOk(H(), mem[..], stack[..sp])
      modifies this, mem
      ensures Tidy(H(), mem[..], end)
      ensures p == 0 <==> BlockEnd(old(H())) + n >= end
      ensures p == 0 ==> H() == old(H()) && MarkedFrom(H(), old(mem[..]), mem[..], stack[..sp])
      ensures p != 0 ==> p == BlockEnd(old(H())) && H() == Grown(old(H()), p, n, false)
      ensures p != 0 ==> var i := (p - base) / 8; 3 <= i <= mem.Length && mem[..] == WriteHeader(old(mem[..]), i, n)
      ensures old(Blank(H(), mem[..])) ==> Blank(H(), mem[..])
    {
      hide HeapOk, CleanMarks, Allocated, NoneFree, Blank, WriteHeader, RootsOk, MarkedFrom, SamePayloads, OnlyHeaders,
        BlockEnd;
      ghost var h, m := H(), mem[..];
      AllocatedIsPlaced(h, m, end);
      p := Alloc(n);
      if p == 0 {
        BlankIsUnlinked(h, m);
        MarkStack(stack, sp);
        MarkedTidy(h, m, mem[..], end);
        p := Alloc(n);
      } else {
        AllocTidy(h, m, end, n);
      }
    }

    /** `construct_pair`: a new unmarked pair that holds the two values, with nothing else in the heap changed. */
    method ConstructPair(car: nat, cdr: nat, stack: array<nat>, sp: nat) returns (w: nat)
      requires stack != mem && sp <= stack.Length && Tidy(H(), mem[..], end)
      requires BlockEnd(H()) + PAIR_SIZE >= end ==> RootsOk(H(), mem[..], stack[..sp])
      requires H().RefOk(car) && H().RefOk(cdr) && NotFree(H(), end, car) && NotFree(H(), end, cdr)
      modifies this, mem
      ensures Tidy(H(), mem[..], end)
      ensures w == 0 <==> BlockEnd(old(H())) + PAIR_SIZE >= end
      ensures w == 0 ==> H() == old(H()) && MarkedFrom(H(), old(mem[..]), mem[..], stack[..sp])
      ensures w != 0 ==> w % 16 == TYPE_PAIR && H().IsRef(w)
      ensures w != 0 ==> var i := H().Index(w);
        && i !in old(blocks) && H() == Grown(old(H()), w - TYPE_PAIR, PAIR_SIZE, true)
        && i + 2 <= mem.Length && 3 <= i
        && mem[..] == WritePair(WriteHeader(old(mem[..]), i, PAIR_SIZE), i, car, cdr)
      ensures old(Blank(H(), mem[..])) ==> Blank(H(), mem[..])
    {
      hide HeapOk, NoneFree, CleanMarks, Allocated, Blank, WriteHeader, RootsOk, MarkedFrom;
      ghost var h, m := H(), mem[..];
      AllocatedIsPlaced(h, m, end);
      var p := VmAlloc(PAIR_SIZE, stack, sp);
      if p == 0 { return 0; }
      var i := (p - base) / 8;
      NewPair(h, m, end, car, cdr);
      if Blank(h, m) { NewPairBlank(h, m, end, car, cdr); }
      mem[i], mem[i + 1] := car, cdr;
      pairs := pairs + {i};
      w := p + TYPE_PAIR;
    }
  }

  lemma BlankIsUnlinked(h: Layout, m: Mem)
    requires h.Placed(|m|)
    ensures Blank(h, m) ==> Unlinked(h, m)
  {
  }
}
