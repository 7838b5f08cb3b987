/** What heap operations leave alone, and what they lose: client data survives every operation
    that is not aimed at it, and the pages lost by a run are those its frees lose. */
module HeapEffects {
  import opened Words
  import opened PageList
  import opened PageAlloc
  import opened HeapModel
  import opened ByteView
  import opened HeapRuns

  // ----- what an operation may write to -----

  /** The words of a page that has an owner, and the owner, are the same in both heaps. */
  ghost predicate PageKept(h: Heap, h': Heap, q: word) {
    && q in h.owner && q in h'.owner && h'.owner[q] == h.owner[q]
    && forall a: word :: PageAt(a) == q ==> Load(h'.pages.mem, a) == Load(h.pages.mem, a)
  }

  /** The operation is aimed at page q: it frees the page, clients write to it, or a failed
      request puts its metadata or its zeros there. */
  ghost predicate Disturbs(h: Heap, op: Op, q: word) {
    match op
    case Memalign(alignment, size) =>
      !Succeeds(h, alignment, size) && q == PageAt(Wrap(Max(8, Effective(alignment)) - 8))
    case Calloc(nmemb, size) =>
      var ptr := MemalignSpec(h, 4, Wrap(nmemb * size)).1;
      exists a: word :: PageAt(a) == q && Covers(ptr, Wrap(nmemb * size), a)
    case FreeBlock(ptr) => q in h.owner && h.owner[q] == Held(ptr)
    case AllocPages(_) => false
    case FreePages(p, size) => InBlock(p, size / PAGE, q)
    case Write(mem) => exists a: word :: PageAt(a) == q && Load(mem, a) != Load(h.pages.mem, a)
  }

  // ----- one lemma for each operation -----

  /** Taking free pages and writing inside them keeps every page that is not free. */
  lemma TakingKeepsPage(h: Heap, order: nat, who: Owner, m: Mem, h': Heap, q: word)
    requires Inv(h) && AllocPagesSpec(h.pages, order).1 != 0 && q in h.owner && h.owner[q] != Free
    requires var (pages, p) := AllocPagesSpec(h.pages, order);
             && h'.owner == Give(h.owner, p, Pow2(order), who) && h'.pages.mem == m
             && forall a: word :: !InBlock(p, Pow2(order), a) ==> Load(m, a) == Load(pages.mem, a)
    ensures PageKept(h, h', q)
  {
    hide Inv, AllocPagesSpec, Pow2;
    var (pages, p) := AllocPagesSpec(h.pages, order);
    TakenBlock(h, order);
    PoolIsPages(h);
    assert !InBlock(p, Pow2(order), q);
    forall a: word | PageAt(a) == q
      ensures Load(m, a) == Load(h.pages.mem, a)
    {
      FreePage(h, q);
      PageOnList(h, a);
      OutsidePage(p, Pow2(order), a);
    }
  }

  /** An address whose page lies outside whole pages lies outside them too. */
  lemma OutsidePage(p: word, n: nat, a: word)
    requires p % PAGE == 0 && p + n * PAGE <= WORD_MOD
    ensures InBlock(p, n, a) ==> InBlock(p, n, PageAt(a))
  {
    if InBlock(p, n, a) {
      PageOf(p, n, a);
    }
  }

  lemma MemalignKeepsPage(h: Heap, alignment: word, size: word, q: word)
    requires Inv(h) && Legal(h, Op.Memalign(alignment, size)) && Succeeds(h, alignment, size)
    requires q in h.owner && h.owner[q] != Free
    ensures PageKept(h, MemalignSpec(h, alignment, size).0, q)
  {
    hide Inv, MemalignSpec, AllocPagesSpec, Roomy, Succeeds, GoodAlignment, PageKept, RoundedSize, Pow2, OrderFor;
    MemalignBlock(h, alignment, size);
    MemalignState(h, alignment, size);
    var (h', ptr) := MemalignSpec(h, alignment, size);
    var b := h'.live[ptr];
    MemalignKeepsInv(h, alignment, size);
    LiveBlockFacts(h', ptr);
    TakingKeepsPage(h, b.order, Held(ptr), h'.pages.mem, h', q);
  }

  lemma FailedMemalignKeepsPage(h: Heap, alignment: word, size: word, q: word)
    requires Inv(h) && Legal(h, Op.Memalign(alignment, size)) && !Succeeds(h, alignment, size)
    requires q in h.owner && !Disturbs(h, Op.Memalign(alignment, size), q)
    ensures PageKept(h, MemalignSpec(h, alignment, size).0, q)
  {
    hide Inv, MemalignSpec, AllocPagesSpec, Roomy, Succeeds, GoodAlignment, RoundedSize, Effective;
    FailedMemalign(h, alignment, size);
    var (h', ptr) := MemalignSpec(h, alignment, size);
    assert ptr % 8 == 0 by { FailedPointer(h, alignment, size); }
    SamePage(ptr - 8);
  }

  lemma FailedPointer(h: Heap, alignment: word, size: word)
    requires Inv(h) && GoodAlignment(alignment) && !Succeeds(h, alignment, size)
    ensures Max(8, Effective(alignment)) % 8 == 0
  {
    hide MemalignSpec, Inv, Succeeds;
    FailedShape(h, alignment, size, Max(8, Effective(alignment)));
  }

  lemma SamePage(a: word)
    requires a % 8 == 0
    ensures a + 4 < WORD_MOD && PageAt(a + 4) == PageAt(a)
  {
    var q, r := a / PAGE, a % PAGE;
    assert a == q * PAGE + r;
    DivModUnique(r, 8, a / 8 - q * 512, 0);
    DivModUnique(a + 4, PAGE, q, r + 4);
  }

  lemma CallocKeepsPage(h: Heap, nmemb: word, size: word, q: word)
    requires Inv(h) && q in h.owner && h.owner[q] != Free && !Disturbs(h, Calloc(nmemb, size), q)
    ensures PageKept(h, CallocSpec(h, nmemb, size).0, q)
  {
    hide Inv, MemalignSpec, Succeeds, LoadByte, FillBytes, Covers, Legal;
    var total := Wrap(nmemb * size);
    MallocKeepsInv(h, total);
    MallocIsLegal(h, total);
    MallocKeepsPage(h, total, q);
    var (h1, ptr) := MemalignSpec(h, 4, total);
    FillBytesEffect(h1.pages.mem, ptr, 0, total);
  }

  lemma MallocKeepsPage(h: Heap, size: word, q: word)
    requires Inv(h) && q in h.owner && h.owner[q] != Free && Legal(h, Op.Memalign(4, size))
    ensures PageKept(h, MemalignSpec(h, 4, size).0, q)
  {
    hide Inv, MemalignSpec, Succeeds, PageKept, GoodAlignment, Roomy;
    if Succeeds(h, 4, size) {
      MemalignKeepsPage(h, 4, size, q);
    } else {
      PoolIsPages(h);
      FailedMemalignKeepsPage(h, 4, size, q);
    }
  }

  lemma FreeKeepsPage(h: Heap, ptr: word, q: word)
    requires Inv(h) && ptr in h.live && q in h.owner && h.owner[q] != Held(ptr)
    ensures Decodes(h.pages.mem, ptr) && PageKept(h, FreeSpec(h, ptr), q)
  {
    hide Inv, Decodes, BlockBegin, BlockSize, Pow2, OrderFor;
    FreeDecodes(h, ptr);
    LiveBlockFacts(h, ptr);
    PoolIsPages(h);
    var b := h.live[ptr];
    assert !InBlock(b.base, Pow2(b.order), q);
    ReleasedPage(h.pages, b.base, b.size, q);
  }

  /** free_pages writes only to the pages it is given. */
  lemma ReleasedPage(s: PageState, p: word, size: word, q: word)
    requires p % PAGE == 0 && size % PAGE == 0 && p + size <= WORD_MOD && !InBlock(p, size / PAGE, q)
    ensures forall a: word :: PageAt(a) == q ==> Load(FreePagesSpec(s, p, size).mem, a) == Load(s.mem, a)
  {
    LinkRunEffect(s.mem, p, size / PAGE, s.freelist);
    forall a: word | PageAt(a) == q
      ensures Load(FreePagesSpec(s, p, size).mem, a) == Load(s.mem, a)
    {
      OutsidePage(p, size / PAGE, a);
    }
  }

  /** An operation that is not aimed at an owned page leaves its owner and all its words alone. */
  lemma StepKeepsPage(h: Heap, op: Op, q: word)
    requires Inv(h) && Legal(h, op) && q in h.owner && h.owner[q] != Free && !Disturbs(h, op, q)
    ensures PageKept(h, Apply(h, op), q)
  {
    hide Inv, MemalignSpec, CallocSpec, FreeSpec, AllocPagesSpec, FreePagesSpec, Roomy, GoodAlignment, PageKept;
    hide ClientWrites, Pow2, Succeeds, Effective, NothingToClear, FillBytes, Covers;
    match op
    case Memalign(alignment, size) =>
      if Succeeds(h, alignment, size) {
        MemalignKeepsPage(h, alignment, size, q);
      } else {
        FailedMemalignKeepsPage(h, alignment, size, q);
      }
    case Calloc(nmemb, size) => CallocKeepsPage(h, nmemb, size, q);
    case FreeBlock(ptr) => FreeKeepsPage(h, ptr, q);
    case AllocPages(order) => TakeKeepsPage(h, order, q);
    case FreePages(p, size) => ReturnKeepsPage(h, p, size, q);
    case Write(mem) => WriteKeepsPage(h, mem, q);
  }

  lemma TakeKeepsPage(h: Heap, order: nat, q: word)
    requires Inv(h) && q in h.owner && h.owner[q] != Free
    ensures PageKept(h, TakeSpec(h, order).0, q)
  {
    hide Inv, AllocPagesSpec, Pow2;
    var (pages, p) := AllocPagesSpec(h.pages, order);
    if p != 0 {
      TakingKeepsPage(h, order, Raw, pages.mem, TakeSpec(h, order).0, q);
    }
  }

  lemma ReturnKeepsPage(h: Heap, p: word, size: word, q: word)
    requires Inv(h) && Legal(h, FreePages(p, size)) && q in h.owner && !InBlock(p, size / PAGE, q)
    ensures PageKept(h, ReturnSpec(h, p, size), q)
  {
    hide Inv;
    ReleasedPage(h.pages, p, size, q);
  }

  lemma WriteKeepsPage(h: Heap, mem: Mem, q: word)
    requires q in h.owner && !Disturbs(h, Write(mem), q)
    ensures PageKept(h, h.(pages := h.pages.(mem := mem)), q)
  {
  }

  // ----- client data over whole runs -----

  /** No operation of the run is aimed at page q. */
  ghost predicate RunSparesPage(h: Heap, ops: seq<Op>, q: word)
    decreases |ops|
  {
    ops == [] || (Legal(h, ops[0]) && !Disturbs(h, ops[0], q) && RunSparesPage(Apply(h, ops[0]), ops[1..], q))
  }

  /** Whoever owns a page finds it as it was after any run that is not aimed at it. */
  lemma {:induction false} RunKeepsPage(h: Heap, ops: seq<Op>, h': Heap, q: word)
    requires Inv(h) && Run(h, ops, h') && RunSparesPage(h, ops, q)
    requires q in h.owner && h.owner[q] != Free
    ensures PageKept(h, h', q)
    decreases |ops|
  {
    hide Inv, Legal, Apply, Disturbs;
    if ops != [] {
      StepKeepsInv(h, ops[0]);
      StepKeepsPage(h, ops[0], q);
      RunKeepsPage(Apply(h, ops[0]), ops[1..], h', q);
    }
  }

  /** The operation is aimed at no page of live block x. */
  ghost predicate Spares(h: Heap, op: Op, x: word)
    requires x in h.live
  {
    forall q: word :: q % PAGE == 0 && InBlock(h.live[x].base, Pow2(h.live[x].order), q) ==> !Disturbs(h, op, q)
  }

  /** Requests that are served without wrapping, the free of another block and the return of
      pages taken directly are aimed at no live block. */
  lemma ServedRequestsSpare(h: Heap, op: Op, x: word)
    requires Inv(h) && Legal(h, op) && x in h.live && op != FreeBlock(x) && !op.Write?
    requires op.Memalign? ==> Succeeds(h, op.alignment, op.size)
    requires op.Calloc? ==>
               Succeeds(h, 4, Wrap(op.nmemb * op.size)) && NoWrap(4, Wrap(op.nmemb * op.size))
    ensures Spares(h, op, x)
  {
    hide Inv, Succeeds, NoWrap, Roomy, GoodAlignment, NothingToClear, Pow2, MemalignSpec, Covers;
    LiveBlockFacts(h, x);
    if op.Calloc? {
      forall a: word | Covers(MemalignSpec(h, 4, Wrap(op.nmemb * op.size)).1, Wrap(op.nmemb * op.size), a)
        ensures PageAt(a) in h.owner && h.owner[PageAt(a)] == Free
      {
        ZerosInFreePages(h, Wrap(op.nmemb * op.size), a);
      }
    }
  }

  /** The bytes a served malloc returns were in free pages. */
  lemma ZerosInFreePages(h: Heap, size: word, a: word)
    requires Inv(h) && Succeeds(h, 4, size) && NoWrap(4, size) && Covers(MemalignSpec(h, 4, size).1, size, a)
    ensures PageAt(a) in h.owner && h.owner[PageAt(a)] == Free
  {
    hide Inv, Succeeds, NoWrap, MemalignSpec, Covers, AllocPagesSpec, Pow2, OrderFor, RoundedSize;
    MallocKeepsInv(h, size);
    MemalignPlacement(h, 4, size);
    var (h', ptr) := MemalignSpec(h, 4, size);
    var b := h'.live[ptr];
    LiveBlockFacts(h', ptr);
    CoversRange(ptr, size);
    TakenBlock(h, b.order);
    PageOf(b.base, Pow2(b.order), a);
  }

  /** Block x is live in both heaps, at the same place, and all its words are the same. */
  ghost predicate BlockKept(h: Heap, h': Heap, x: word) {
    && x in h.live && x in h'.live && h'.live[x] == h.live[x]
    && forall a: word :: InBlock(h.live[x].base, Pow2(h.live[x].order), a) ==>
         Load(h'.pages.mem, a) == Load(h.pages.mem, a)
  }

  lemma StepKeepsBlock(h: Heap, op: Op, x: word)
    requires Inv(h) && Legal(h, op) && x in h.live && Spares(h, op, x)
    ensures BlockKept(h, Apply(h, op), x)
  {
    hide Inv, Legal, Apply, Disturbs, Pow2, OrderFor;
    var b := h.live[x];
    LiveBlockFacts(h, x);
    StepKeepsEntry(h, op, x);
    forall a: word | InBlock(b.base, Pow2(b.order), a)
      ensures Load(Apply(h, op).pages.mem, a) == Load(h.pages.mem, a)
    {
      BlockPage(h, x, a);
      PageOf(b.base, Pow2(b.order), a);
      StepKeepsPage(h, op, PageAt(a));
    }
  }

  lemma OwnFreeDisturbs(h: Heap, op: Op, x: word)
    requires Inv(h) && x in h.live && Spares(h, op, x)
    ensures op != FreeBlock(x)
  {
    hide Inv, Pow2, OrderFor;
    var b := h.live[x];
    LiveBlockFacts(h, x);
    assert InBlock(b.base, Pow2(b.order), b.base);
    assert h.owner[b.base] == Held(x);
    assert Disturbs(h, FreeBlock(x), b.base);
    assert !Disturbs(h, op, b.base);
  }

  lemma StepKeepsEntry(h: Heap, op: Op, x: word)
    requires Inv(h) && Legal(h, op) && x in h.live && Spares(h, op, x)
    ensures x in Apply(h, op).live && Apply(h, op).live[x] == h.live[x]
  {
    hide Inv, Roomy, GoodAlignment, AllocPagesSpec, FreePagesSpec, Pow2, OrderFor, RoundedSize, NothingToClear;
    OwnFreeDisturbs(h, op, x);
    match op
    case Memalign(alignment, size) => MemalignKeepsEntry(h, alignment, size, x);
    case Calloc(nmemb, size) =>
      MallocIsLegal(h, Wrap(nmemb * size));
      MemalignKeepsEntry(h, 4, Wrap(nmemb * size), x);
    case _ =>
  }

  lemma MemalignKeepsEntry(h: Heap, alignment: word, size: word, x: word)
    requires Inv(h) && Legal(h, Op.Memalign(alignment, size)) && x in h.live
    ensures var h' := MemalignSpec(h, alignment, size).0; x in h'.live && h'.live[x] == h.live[x]
  {
    hide Inv, MemalignSpec, Roomy, GoodAlignment, Succeeds, AllocPagesSpec;
    if Succeeds(h, alignment, size) {
      MemalignKeepsInv(h, alignment, size);
      MemalignState(h, alignment, size);
    } else {
      FailedMemalign(h, alignment, size);
    }
  }

  ghost predicate RunSpares(h: Heap, ops: seq<Op>, x: word)
    decreases |ops|
  {
    ops == [] ||
    (x in h.live && Legal(h, ops[0]) && Spares(h, ops[0], x) && RunSpares(Apply(h, ops[0]), ops[1..], x))
  }

  /** Client data survives: after any run that is not aimed at a live block, however many other
      blocks were taken, written and freed on the way, the block is still live, where it
      was, and holds what it held. */
  lemma {:induction false} RunKeepsBlock(h: Heap, ops: seq<Op>, h': Heap, x: word)
    requires Inv(h) && Run(h, ops, h') && x in h.live && RunSpares(h, ops, x)
    ensures BlockKept(h, h', x)
    decreases |ops|
  {
    hide Inv, Legal, Apply, Spares;
    if ops != [] {
      StepKeepsInv(h, ops[0]);
      StepKeepsBlock(h, ops[0], x);
      RunKeepsBlock(Apply(h, ops[0]), ops[1..], h', x);
    }
  }

  // ----- what a run loses -----

  function LeakedPages(h: Heap): set<word> {
    set q | q in h.owner && h.owner[q] == Leaked
  }

  /** Pages of a block that its free does not return. */
  function Loss(b: Block): int {
    Pow2(b.order) - b.size / PAGE
  }

  /** A block of n pages loses 2^order - n when it is freed, less than n, and nothing exactly when n
      is a power of two. */
  lemma LossOfBlock(h: Heap, x: word)
    requires Inv(h) && x in h.live
    ensures var n: word := h.live[x].size / PAGE;
            && n > 0 && Loss(h.live[x]) == Pow2(OrderFor(n)) - n
            && 0 <= Loss(h.live[x]) < n
            && (Loss(h.live[x]) == 0 <==> IsPow2(n))
  {
    hide Inv, Pow2, OrderFor, IsPow2;
    LiveBlockFacts(h, x);
    OrderForIsTight(h.live[x].size / PAGE);
  }

  /** Pages of a block behind its rounded size. */
  function Tail(b: Block): set<word> {
    set q: word | q % PAGE == 0 && b.base + b.size <= q < b.base + Pow2(b.order) * PAGE
  }

  lemma TailCount(b: Block)
    requires IsPage(b.base) && b.size % PAGE == 0 && b.size <= Pow2(b.order) * PAGE
    requires b.base + Pow2(b.order) * PAGE <= WORD_MOD
    ensures |Tail(b)| == Loss(b)
  {
    hide Pow2;
    if Loss(b) == 0 {
      assert Tail(b) == {};
    } else {
      var start: word := b.base + b.size;
      PagesMembers(start, Loss(b));
      DistinctCount(Pages(start, Loss(b)), Tail(b));
    }
  }

  /** What a free leaks is the tail of the block, none of which was lost before. */
  lemma FreeLeaksTail(h: Heap, ptr: word)
    requires Inv(h) && ptr in h.live
    ensures Decodes(h.pages.mem, ptr)
    ensures LeakedPages(FreeSpec(h, ptr)) == LeakedPages(h) + Tail(h.live[ptr])
    ensures LeakedPages(h) !! Tail(h.live[ptr])
  {
    hide Inv, Decodes, BlockBegin, BlockSize, Pow2, OrderFor, FreePagesSpec;
    FreeDecodes(h, ptr);
    LiveBlockFacts(h, ptr);
    PoolIsPages(h);
    var b := h.live[ptr];
    forall q: word | q in Tail(b)
      ensures q in h.owner && h.owner[q] == Held(ptr)
    {
      assert InBlock(b.base, Pow2(b.order), q);
    }
  }

  lemma FreeLeaks(h: Heap, ptr: word)
    requires Inv(h) && ptr in h.live
    ensures Decodes(h.pages.mem, ptr)
    ensures |LeakedPages(FreeSpec(h, ptr))| == |LeakedPages(h)| + Loss(h.live[ptr])
  {
    hide Inv, Decodes, FreeSpec, LeakedPages, Tail, Pow2, OrderFor, Loss;
    LiveBlockFacts(h, ptr);
    FreeLeaksTail(h, ptr);
    TailCount(h.live[ptr]);
  }

  /** Pages that change hands between owners do not leak. */
  lemma GiveKeepsLeaks(h: Heap, h': Heap, p: word, n: nat, from: Owner, to: Owner)
    requires Inv(h) && Owns(h.owner, p, n, from) && from != Leaked && to != Leaked
    requires h'.owner == Give(h.owner, p, n, to)
    ensures LeakedPages(h') == LeakedPages(h)
  {
    hide IsList;
    PoolIsPages(h);
  }

  lemma MemalignKeepsLeaks(h: Heap, alignment: word, size: word)
    requires Inv(h) && Legal(h, Op.Memalign(alignment, size))
    ensures LeakedPages(MemalignSpec(h, alignment, size).0) == LeakedPages(h)
  {
    hide MemalignSpec, Roomy, Inv, GoodAlignment, AllocPagesSpec;
    if Succeeds(h, alignment, size) {
      MemalignBlock(h, alignment, size);
      MemalignState(h, alignment, size);
      var (h', ptr) := MemalignSpec(h, alignment, size);
      var b := h'.live[ptr];
      TakenBlock(h, b.order);
      GiveKeepsLeaks(h, h', b.base, Pow2(b.order), Owner.Free, Held(ptr));
    } else {
      FailedMemalign(h, alignment, size);
    }
  }

  /** What an operation leaks. */
  ghost function Leak(h: Heap, op: Op): int {
    if op.FreeBlock? && op.ptr in h.live then Loss(h.live[op.ptr]) else 0
  }

  lemma StepLeaks(h: Heap, op: Op)
    requires Inv(h) && Legal(h, op)
    ensures |LeakedPages(Apply(h, op))| == |LeakedPages(h)| + Leak(h, op)
  {
    hide Inv, MemalignSpec, FreeSpec, AllocPagesSpec, FreePagesSpec, Succeeds, ClientWrites, NothingToClear;
    hide Loss;
    match op
    case Memalign(alignment, size) => MemalignKeepsLeaks(h, alignment, size);
    case Calloc(nmemb, size) =>
      MallocIsLegal(h, Wrap(nmemb * size));
      MemalignKeepsLeaks(h, 4, Wrap(nmemb * size));
    case FreeBlock(ptr) => FreeLeaks(h, ptr);
    case AllocPages(order) =>
      if AllocPagesSpec(h.pages, order).1 != 0 {
        TakenBlock(h, order);
        GiveKeepsLeaks(h, TakeSpec(h, order).0, AllocPagesSpec(h.pages, order).1, Pow2(order), Owner.Free, Raw);
      }
    case FreePages(p, size) => GiveKeepsLeaks(h, ReturnSpec(h, p, size), p, size / PAGE, Raw, Owner.Free);
    case Write(mem) =>
  }

  /** What the frees of a run lose, added up. */
  ghost function RunLeak(h: Heap, ops: seq<Op>): int
    decreases |ops|
  {
    if ops == [] || !Legal(h, ops[0]) then 0 else Leak(h, ops[0]) + RunLeak(Apply(h, ops[0]), ops[1..])
  }

  /** Exact accounting over whole runs: the pages leaked are those that the frees of the run lose,
      2^order - n for each block of n pages, and every other page of the pool is free or
      owned as RunConservesPages says. */
  lemma {:induction false} RunLeaks(h: Heap, ops: seq<Op>, h': Heap)
    requires Inv(h) && Run(h, ops, h')
    ensures |LeakedPages(h')| == |LeakedPages(h)| + RunLeak(h, ops)
    decreases |ops|
  {
    hide Inv, Legal, Apply, Leak, LeakedPages;
    if ops != [] {
      StepKeepsInv(h, ops[0]);
      StepLeaks(h, ops[0]);
      RunLeaks(Apply(h, ops[0]), ops[1..], h');
    }
  }
}
