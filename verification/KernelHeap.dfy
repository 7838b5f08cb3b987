/** malloc, calloc, memalign and free over the page backend, in the form of the source,
    proved against the heap operations of HeapModel and HeapRuns. */
module KernelHeap {
  import opened Words
  import opened PageList
  import opened PageAlloc
  import opened HeapModel
  import opened ByteView
  import opened HeapRuns

  class Kernel {
    const pages: PageAllocator
    ghost var owner: map<word, Owner>
    ghost var live: map<word, Block>

    ghost function State(): Heap
      reads this, pages
    {
      Heap(pages.State(), owner, live)
    }

    ghost predicate Valid()
      reads this, pages
    {
      Inv(State())
    }

    /** A heap over the pages of a list nobody has taken anything from. */
    constructor (p: PageAllocator)
      requires p.Valid()
      ensures pages == p && Valid() && fresh(this)
      ensures State().pages == p.State() && live == map[]
    {
      pages := p;
      owner := map q | q in p.nodes :: Owner.Free;
      live := map[];
      new;
      assert pages.State() == p.State();
      FreshPool(State());
    }

    /** Does what the heap operation says for every request, and keeps the heap whole for a
        legal one. */
    method Memalign(alignment: word, size: word) returns (ptr: word)
      requires pages.Valid()
      modifies this, pages
      ensures (State(), ptr) == MemalignSpec(old(State()), alignment, size)
      ensures old(Valid() && Legal(State(), Op.Memalign(alignment, size))) ==> Valid()
    {
      hide Inv, Legal, Apply, MemalignSpec, PageMemalignSpec, RoundedSize, Place, Align, OrderFor, PageCount;
      hide Give, Pow2, IsList, Wrap;
      ghost var h := State();
      KeepsWhole(h, Op.Memalign(alignment, size));
      var a, need := alignment, size;
      if alignment <= 4 {
        a := 4;
      } else {
        need := Wrap(size + Wrap(alignment - 1));
      }
      var blkalign: word := Max(a, PAGE);
      need := Align(Wrap(need + METADATA), PAGE);
      RoundedIs(alignment, size);
      RoundedIsPages(alignment, size);
      var p := pages.PageMemalign(blkalign, need);
      ptr := Wrap(p + METADATA);
      ptr := Align(ptr, a);
      PlaceIs(p, alignment);
      pages.mem := pages.mem[Wrap(ptr - 8) as nat := Wrap(ptr - p)];
      pages.mem := pages.mem[Wrap(ptr - 4) as nat := need];
      MemalignIs(h, alignment, size);
      if p != 0 {
        ghost var order := OrderFor(PageCount(need));
        owner := Give(owner, p, Pow2(order), Held(ptr));
        live := live[ptr := Block(p, need, order)];
      }
    }

    method Malloc(size: word) returns (ptr: word)
      requires pages.Valid()
      modifies this, pages
      ensures (State(), ptr) == MemalignSpec(old(State()), 4, size)
      ensures old(Valid() && Legal(State(), Op.Memalign(4, size))) ==> Valid()
    {
      ptr := Memalign(4, size);
    }

    method Memset(s: word, c: nat, n: word)
      requires c < 0x100
      modifies pages`mem
      ensures pages.mem == FillBytes(old(pages.mem), s, c, n)
    {
      hide StoreByte;
      var i: nat := 0;
      while i < n
        invariant i <= n && pages.mem == FillBytes(old(pages.mem), s, c, i)
      {
        pages.mem := StoreByte(pages.mem, Wrap(s + i), c);
        i := i + 1;
      }
    }

    method Calloc(nmemb: word, size: word) returns (ptr: word)
      requires pages.Valid()
      modifies this, pages
      ensures (State(), ptr) == CallocSpec(old(State()), nmemb, size)
      ensures old(Valid() && Legal(State(), Op.Calloc(nmemb, size))) ==> Valid()
    {
      hide Inv, MemalignSpec, FillBytes, Legal;
      ghost var h := State();
      KeepsWhole(h, Op.Calloc(nmemb, size));
      var total := Wrap(nmemb * size);
      ptr := Malloc(total);
      if ptr != 0 {
        Memset(ptr, 0, total);
      }
    }

    method Free(ptr: word)
      requires Valid() && ptr in live
      modifies this, pages
      ensures Valid()
      ensures old(Decodes(pages.mem, ptr)) && State() == FreeSpec(old(State()), ptr)
    {
      ghost var h := State();
      hide Inv, IsList, FreePagesSpec;
      PagesValid(h);
      FreeKeepsInv(h, ptr);
      FreeDecodes(h, ptr);
      FreeAllowed(h, ptr);
      var base := BlockBegin(pages.mem, ptr);
      var sz := BlockSize(pages.mem, ptr);
      ghost var b := live[ptr];
      pages.FreePages(base, sz);
      owner := Give(Give(owner, b.base, Pow2(b.order), Leaked), b.base, sz / PAGE, Owner.Free);
      live := live - {ptr};
      assert State() == FreeSpec(h, ptr);
    }
  }

  lemma FreshPool(h: Heap)
    requires h.pages.Valid() && h.live == map[]
    requires h.owner == map q | q in h.pages.nodes :: Owner.Free
    ensures Inv(h)
  {
  }

  lemma PagesValid(h: Heap)
    requires Inv(h)
    ensures h.pages.Valid()
  {
  }

  /** A legal operation on a whole heap leaves a whole heap. */
  lemma KeepsWhole(h: Heap, op: Op)
    ensures Inv(h) && Legal(h, op) ==> Inv(Apply(h, op))
    ensures op.Memalign? && Legal(h, op) ==> Apply(h, op) == MemalignSpec(h, op.alignment, op.size).0
    ensures op.Calloc? && Legal(h, op) ==> Apply(h, op) == CallocSpec(h, op.nmemb, op.size).0
  {
    hide Inv, Legal, MemalignSpec, CallocSpec;
    if Inv(h) && Legal(h, op) {
      StepKeepsInv(h, op);
    }
  }

  lemma RoundedIs(alignment: word, size: word)
    ensures RoundedSize(alignment, size) ==
            Align(Wrap((if alignment <= 4 then size else Wrap(size + Wrap(alignment - 1))) + METADATA), PAGE)
  {
  }

  lemma PlaceIs(p: word, alignment: word)
    ensures Place(p, alignment) == Align(Wrap(p + METADATA), if alignment <= 4 then 4 else alignment)
  {
  }

  /** memalign in terms of the page it gets from the backend. */
  lemma MemalignIs(h: Heap, alignment: word, size: word)
    ensures var rounded := RoundedSize(alignment, size);
            rounded <= WORD_MOD - PAGE &&
            var (pages, p) := PageMemalignSpec(h.pages, rounded);
            var ptr := Place(p, alignment);
            var mem := pages.mem[Wrap(ptr - 8) as nat := Wrap(ptr - p)][Wrap(ptr - 4) as nat := rounded];
            && (p == 0 ==> MemalignSpec(h, alignment, size) == (Heap(pages.(mem := mem), h.owner, h.live), ptr))
            && (p != 0 ==>
                  && PageCount(rounded) > 0
                  && var order := OrderFor(PageCount(rounded));
                     MemalignSpec(h, alignment, size) ==
                     (Heap(pages.(mem := mem), Give(h.owner, p, Pow2(order), Held(ptr)),
                           h.live[ptr := Block(p, rounded, order)]), ptr))
  {
    hide RoundedSize, Place, AllocPagesSpec, Pow2, OrderFor, PageCount, Give, Align;
    RoundedIsPages(alignment, size);
    PagesIn(RoundedSize(alignment, size));
  }

  /** The block of a live pointer may be handed to free_pages. */
  lemma FreeAllowed(h: Heap, ptr: word)
    requires Inv(h) && ptr in h.live
    ensures var b := h.live[ptr];
            && IsPage(b.base) && b.size > 0 && b.size % PAGE == 0 && b.base + b.size <= WORD_MOD
            && forall q :: q in h.pages.nodes ==> !InBlock(b.base, b.size / PAGE, q)
  {
  }

  // ----- the first request on a fresh heap -----

  /** The heap in which one region was freed into an empty list and nothing was taken yet. */
  ghost function FreshHeap(m: Mem, p: word, size: word): Heap
    requires size % PAGE == 0 && p + size <= WORD_MOD
  {
    var pages := FreePagesSpec(PageState(m, 0, []), p, size);
    Heap(pages, map q | q in pages.nodes :: Owner.Free, map[])
  }

  /** A region of n pages holds a naturally aligned block for the rounded size. */
  ghost predicate Serves(p: word, n: nat, rounded: word) {
    rounded >= PAGE && exists k: nat :: AlignedBlock(p, n, OrderFor(rounded / PAGE), k)
  }

  /** On a fresh heap the first request is served exactly when its rounded size is not 0 and the
      region holds a naturally aligned block of the least power of two of pages for it. */
  lemma FirstRequest(m: Mem, p: word, size: word, alignment: word, request: word)
    requires IsPage(p) && 0 < size && size % PAGE == 0 && p + size <= WORD_MOD
    ensures Inv(FreshHeap(m, p, size))
    ensures Succeeds(FreshHeap(m, p, size), alignment, request) <==>
            Serves(p, size / PAGE, RoundedSize(alignment, request))
  {
    hide Inv, RoundedSize, AllocPagesSpec, AlignedBlock, FreePagesSpec, PageCount, OrderFor;
    var h, rounded := FreshHeap(m, p, size), RoundedSize(alignment, request);
    RoundedIsPages(alignment, request);
    PagesIn(rounded);
    FreedRegionAllocates(PageState(m, 0, []), p, size, if rounded > 0 then OrderFor(PageCount(rounded)) else 0);
    FreshPool(h);
  }

  /** A block for n pages is found in a single page exactly when n is 1. */
  lemma BlocksInOnePage(p: word, n: word)
    requires IsPage(p) && n > 0
    ensures (exists k: nat :: AlignedBlock(p, 1, OrderFor(n), k)) <==> n == 1
  {
    hide OrderFor;
    OrderForIsTight(n);
    if n == 1 {
      PageAlignedAtOrder0(p);
      assert AlignedBlock(p, 1, OrderFor(1), 0);
    }
  }

  /** The rounded size of a malloc is one page when it fits behind the metadata, and also when its
      last addition wraps to a few bytes. */
  lemma OnePageRounded(request: word)
    ensures RoundedSize(4, request) == PAGE <==> request <= PAGE - METADATA || request > 0xFFFF_FFF8
  {
    hide Align;
    OnePageSizes(Wrap(Unrounded(4, request)));
  }

  /** The only block of a fresh heap of one page is that page. */
  lemma OnlyPage(m: Mem, p: word, order: nat)
    requires IsPage(p) && p + PAGE <= WORD_MOD && Inv(FreshHeap(m, p, PAGE))
    requires AllocPagesSpec(FreshHeap(m, p, PAGE).pages, order).1 != 0
    ensures AllocPagesSpec(FreshHeap(m, p, PAGE).pages, order).1 == p
  {
    hide Inv, AllocPagesSpec, Pow2;
    var h := FreshHeap(m, p, PAGE);
    TakenBlock(h, order);
    var q := AllocPagesSpec(h.pages, order).1;
    assert InBlock(q, Pow2(order), q);
    assert q in h.owner;
    assert q in Pages(p, 1);
  }

  /** One free page serves exactly the mallocs that fit behind its metadata and those of the last
      seven sizes, whose computation wraps to a few bytes; all of them get the same address. */
  lemma OnePageServes(m: Mem, p: word, request: word)
    requires IsPage(p)
    ensures p + PAGE <= WORD_MOD
    ensures Succeeds(FreshHeap(m, p, PAGE), 4, request) <==>
            request <= PAGE - METADATA || request > 0xFFFF_FFF8
    ensures Succeeds(FreshHeap(m, p, PAGE), 4, request) ==>
              MemalignSpec(FreshHeap(m, p, PAGE), 4, request).1 == p + METADATA
  {
    hide Inv, RoundedSize, MemalignSpec, FreshHeap, Succeeds, AlignedBlock, OrderFor, AllocPagesSpec;
    assert GoodAlignment(4) by { MallocAlignment(); }
    var h, rounded := FreshHeap(m, p, PAGE), RoundedSize(4, request);
    FirstRequest(m, p, PAGE, 4, request);
    OnePageRounded(request);
    RoundedIsPages(4, request);
    if rounded >= PAGE {
      BlocksInOnePage(p, rounded / PAGE);
    }
    if Succeeds(h, 4, request) {
      MallocKeepsInv(h, request);
      MemalignBlock(h, 4, request);
      var (h', ptr) := MemalignSpec(h, 4, request);
      OnlyPage(m, p, h'.live[ptr].order);
    }
  }

  lemma MallocAlignment()
    ensures GoodAlignment(4)
  {
  }
}
