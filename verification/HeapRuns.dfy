/** Safety and accounting of the kernel heap over whole runs. */
module HeapRuns {
  import opened Words
  import opened PageList
  import opened PageAlloc
  import opened HeapModel
  import opened ByteView

  // ----- returning pages -----

  /** No metadata word of a live block lies in pages that somebody else owns. */
  lemma MetadataElsewhere(h: Heap, x: word, p: word, n: nat, who: Owner)
    requires Inv(h) && x in h.live && who != Held(x)
    requires IsPage(p) && p + n * PAGE <= WORD_MOD && Owns(h.owner, p, n, who)
    ensures 8 <= x && !InBlock(p, n, x - 8) && !InBlock(p, n, x - 4)
  {
    var b := h.live[x];
    assert BlockOk(h, x, b);
    OwnedByOne(h.owner, b.base, Pow2(b.order), Held(x), p, n, who, x - 8);
    OwnedByOne(h.owner, b.base, Pow2(b.order), Held(x), p, n, who, x - 4);
  }

  lemma OwnedByOne(owner: map<word, Owner>, p: word, n: nat, who: Owner, p': word, n': nat, who': Owner,
                   a: word)
    requires IsPage(p) && p + n * PAGE <= WORD_MOD && Owns(owner, p, n, who) && InBlock(p, n, a)
    requires IsPage(p') && p' + n' * PAGE <= WORD_MOD && Owns(owner, p', n', who') && who != who'
    ensures !InBlock(p', n', a)
  {
    PageOf(p, n, a);
    assert owner[PageAt(a)] == who;
    assert InBlock(p', n', a) ==> InBlock(p', n', PageAt(a));
  }

  /** Pages that no live block owns can go back to the list. */
  lemma ReleaseKeepsInv(h: Heap, p: word, size: word, who: Owner)
    requires Inv(h) && IsPage(p) && size > 0 && size % PAGE == 0 && p + size <= WORD_MOD
    requires Owns(h.owner, p, size / PAGE, who) && (who == Raw || who == Leaked)
    ensures Inv(Heap(FreePagesSpec(h.pages, p, size), Give(h.owner, p, size / PAGE, Free), h.live))
  {
    hide IsList;
    var n := size / PAGE;
    var h' := Heap(FreePagesSpec(h.pages, p, size), Give(h.owner, p, n, Free), h.live);
    forall q | q in h.pages.nodes
      ensures !InBlock(p, n, q)
    {
      assert h.owner[q] == Free;
    }
    FreePagesKeepsList(h.pages, p, size);
    PagesMembers(p, n);
    LinkRunEffect(h.pages.mem, p, n, h.pages.freelist);
    forall x: word | x in h.live
      ensures BlockOk(h', x, h.live[x])
    {
      assert BlockOk(h, x, h.live[x]);
      MetadataElsewhere(h, x, p, n, who);
    }
  }

  /** A block that is given up leaks until its pages are put on the list. */
  lemma AbandonKeepsInv(h: Heap, ptr: word)
    requires Inv(h) && ptr in h.live
    ensures var b := h.live[ptr];
            var h' := Heap(h.pages, Give(h.owner, b.base, Pow2(b.order), Leaked), h.live - {ptr});
            Inv(h') && Owns(h'.owner, b.base, b.size / PAGE, Leaked)
  {
    hide IsList, OrderFor, Load;
  }

  /** free finds the block from the two words in front of its argument. */
  lemma FreeDecodes(h: Heap, ptr: word)
    requires Inv(h) && ptr in h.live
    ensures BlockBegin(h.pages.mem, ptr) == h.live[ptr].base
    ensures BlockSize(h.pages.mem, ptr) == h.live[ptr].size
    ensures Decodes(h.pages.mem, ptr)
  {
    hide IsList, Pow2, OrderFor, Owns;
  }

  lemma FreeKeepsInv(h: Heap, ptr: word)
    requires Inv(h) && ptr in h.live
    ensures Decodes(h.pages.mem, ptr) && Inv(FreeSpec(h, ptr))
  {
    hide Inv;
    var b := h.live[ptr];
    FreeDecodes(h, ptr);
    AbandonKeepsInv(h, ptr);
    var h' := Heap(h.pages, Give(h.owner, b.base, Pow2(b.order), Leaked), h.live - {ptr});
    LiveBlockFacts(h, ptr);
    ReleaseKeepsInv(h', b.base, b.size, Leaked);
  }

  lemma LiveBlockFacts(h: Heap, ptr: word)
    requires Inv(h) && ptr in h.live
    ensures BlockOk(h, ptr, h.live[ptr])
  {
  }

  lemma TakeSpecKeepsInv(h: Heap, order: nat)
    requires Inv(h)
    ensures Inv(TakeSpec(h, order).0)
  {
    if AllocPagesSpec(h.pages, order).1 != 0 {
      TakeKeepsInv(h, order, Raw);
    }
  }

  // ----- page accounting -----

  /** What malloc followed by free costs. The rounded size is n pages; 2^order pages are
      taken, n of them come back, and the rest is never free again. The set of free pages
      is the same as before exactly when n is a power of two. */
  lemma AllocFreeAccounting(h: Heap, alignment: word, size: word)
    requires Inv(h) && GoodAlignment(alignment) && Roomy(alignment, size) && Succeeds(h, alignment, size)
    ensures var (h1, ptr) := MemalignSpec(h, alignment, size);
            Inv(h1) && ptr in h1.live && Decodes(h1.pages.mem, ptr) &&
            var b := h1.live[ptr];
            var h2 := FreeSpec(h1, ptr);
            var n, taken := b.size / PAGE, Pow2(b.order);
            && n <= taken < 2 * n
            && |h1.pages.nodes| == |h.pages.nodes| - taken
            && |h2.pages.nodes| == |h.pages.nodes| - (taken - n)
            && h2.live == h.live
            && (forall q: word :: q in h2.pages.nodes <==>
                  q in h.pages.nodes && !(b.base + b.size <= q < b.base + taken * PAGE))
            && ((forall q: word :: q in h2.pages.nodes <==> q in h.pages.nodes) <==> IsPow2(n))
  {
    hide MemalignSpec, FreeSpec, Inv, RoundedSize, Roomy, Succeeds, GoodAlignment, Place;
    MemalignKeepsInv(h, alignment, size);
    MemalignBlock(h, alignment, size);
    MemalignState(h, alignment, size);
    var (h1, ptr) := MemalignSpec(h, alignment, size);
    var b := h1.live[ptr];
    TakenBlock(h, b.order);
    TakenCount(h, b.order);
    FreedPages(h1, ptr);
    assert h.live[ptr := b] - {ptr} == h.live;
    OrderForIsTight(b.size / PAGE);
    NetEffect(h.pages.nodes, h1.pages.nodes, FreeSpec(h1, ptr).pages.nodes, b.base, b.size / PAGE, Pow2(b.order));
  }

  lemma NetEffect(before: seq<word>, mid: seq<word>, after: seq<word>, p: word, n: nat, taken: nat)
    requires p % PAGE == 0 && p + taken * PAGE <= WORD_MOD && n <= taken
    requires forall q: word :: q % PAGE == 0 && InBlock(p, taken, q) ==> q in before
    requires forall q: word :: q in mid <==> q in before && !InBlock(p, taken, q)
    requires forall q: word :: q in after <==> q in mid || (q % PAGE == 0 && InBlock(p, n, q))
    requires forall q: word :: q in before ==> q % PAGE == 0
    ensures forall q: word :: q in after <==> q in before && !(p + n * PAGE <= q < p + taken * PAGE)
    ensures (forall q: word :: q in after <==> q in before) <==> n == taken
  {
    if n < taken {
      var lost: word := p + n * PAGE;
      assert InBlock(p, taken, lost) && !InBlock(p, n, lost);
      assert lost in before && lost !in after;
    }
  }

  lemma TakenCount(h: Heap, order: nat)
    requires Inv(h) && AllocPagesSpec(h.pages, order).1 != 0
    ensures forall q: word :: q in h.pages.nodes ==> q % PAGE == 0
    ensures forall q: word :: q % PAGE == 0 && InBlock(AllocPagesSpec(h.pages, order).1, Pow2(order), q) ==>
              q in h.pages.nodes
    ensures |AllocPagesSpec(h.pages, order).0.nodes| == |h.pages.nodes| - Pow2(order)
  {
    TakenBlock(h, order);
  }

  lemma FreedPages(h: Heap, ptr: word)
    requires Inv(h) && ptr in h.live
    ensures Decodes(h.pages.mem, ptr)
    ensures var b, h' := h.live[ptr], FreeSpec(h, ptr);
            && |h'.pages.nodes| == |h.pages.nodes| + b.size / PAGE
            && h'.live == h.live - {ptr}
            && forall q: word :: q in h'.pages.nodes <==>
                 q in h.pages.nodes || (q % PAGE == 0 && InBlock(b.base, b.size / PAGE, q))
  {
    FreeDecodes(h, ptr);
    LiveBlockFacts(h, ptr);
    var b := h.live[ptr];
    PagesMembers(b.base, b.size / PAGE);
  }

  // ----- calloc and the client's own writes -----

  /** calloc: malloc, then clear. The product of the arguments wraps like the source's, and
      the test for NULL never fails because memalign never returns NULL. */
  ghost function CallocSpec(h: Heap, nmemb: word, size: word): (Heap, word) {
    var total := Wrap(nmemb * size);
    var (h', ptr) := MemalignSpec(h, 4, total);
    if ptr == 0 then (h', ptr)
    else (h'.(pages := h'.pages.(mem := FillBytes(h'.pages.mem, ptr, 0, total))), ptr)
  }

  /** Words a client may write: behind the pointer of a live block up to the end of its
      rounded size, and anywhere in pages it took directly. */
  ghost predicate UserWord(h: Heap, a: nat) {
    || (exists ptr: word :: ptr in h.live && ptr <= a < h.live[ptr].base + h.live[ptr].size)
    || (a < WORD_MOD && PageAt(a) in h.owner && h.owner[PageAt(a)] == Raw)
  }

  ghost predicate ClientWrites(h: Heap, m: Mem) {
    forall a: nat :: Load(m, a) == Load(h.pages.mem, a) || UserWord(h, a)
  }

  lemma UserWordsApart(h: Heap, x: word, a: nat)
    requires Inv(h) && x in h.live && (a == x - 8 || a == x - 4)
    ensures !UserWord(h, a)
  {
    hide IsList, Pow2, OrderFor;
    var b := h.live[x];
    assert BlockOk(h, x, b);
    LiveBlocksDisjoint(h, x, x, a);
    assert InBlock(b.base, Pow2(b.order), PageAt(a));
    forall ptr: word | ptr in h.live
      ensures !(ptr <= a < h.live[ptr].base + h.live[ptr].size)
    {
      assert BlockOk(h, ptr, h.live[ptr]);
      LiveBlocksDisjoint(h, x, ptr, a);
    }
  }

  lemma FreePagesApart(h: Heap, q: word)
    requires Inv(h) && q in h.pages.nodes
    ensures !UserWord(h, q)
  {
  }

  /** Clients that write only what is theirs cannot damage the list or the metadata. */
  lemma WriteKeepsInv(h: Heap, m: Mem)
    requires Inv(h) && ClientWrites(h, m)
    ensures Inv(h.(pages := h.pages.(mem := m)))
  {
    hide UserWord, IsList;
    forall q: word | q in h.pages.nodes
      ensures Load(m, q) == Load(h.pages.mem, q)
    {
      FreePagesApart(h, q);
    }
    forall x: word | x in h.live
      ensures SameMetadata(h, x, m)
    {
      LiveBlockFacts(h, x);
      UserWordsApart(h, x, x - 8);
      UserWordsApart(h, x, x - 4);
    }
    MemoryFrame(h, m);
  }

  /** Clearing the n bytes from s on changes no byte of the word at address a. */
  predicate Blank(m: Mem, a: nat, s: word, n: nat) {
    forall b: nat :: a <= b < a + 4 && Covers(s, n, b) ==> LoadByte(m, b) == 0
  }

  /** No link of the list and no metadata of a live block has a byte other than 0 among the n
      bytes from s on. */
  ghost predicate NothingToClear(h: Heap, s: word, n: nat) {
    && (forall q: word :: q in h.pages.nodes ==> Blank(h.pages.mem, q, s, n))
    && forall x: word :: x in h.live ==> BlankMetadata(h.pages.mem, x, s, n)
  }

  predicate BlankMetadata(m: Mem, x: word, s: word, n: nat) {
    8 <= x && Blank(m, x - 8, s, n) && Blank(m, x - 4, s, n)
  }

  lemma HeapAddresses(h: Heap)
    requires Inv(h)
    ensures forall x: word :: x in h.live ==> PAGE + 8 <= x && (x - 8) % 4 == 0 && (x - 4) % 4 == 0
    ensures forall q: word :: q in h.pages.nodes ==> PAGE <= q && q % 4 == 0
  {
    hide Inv, IsList, IsPage;
    forall x: word | x in h.live
      ensures PAGE + 8 <= x && (x - 8) % 4 == 0 && (x - 4) % 4 == 0
    {
      LiveBlockFacts(h, x);
      PointerWords(x, h.live[x].base);
    }
    ListSafety(h);
    forall q: word | q in h.pages.nodes
      ensures PAGE <= q && q % 4 == 0
    {
      PageIsWord(q);
    }
  }

  lemma PointerWords(x: word, base: word)
    requires x % 8 == 0 && IsPage(base) && base + METADATA <= x
    ensures PAGE + 8 <= x && (x - 8) % 4 == 0 && (x - 4) % 4 == 0
  {
    var k := x / 8;
    DivModUnique(x - 8, 4, 2 * k - 2, 0);
    DivModUnique(x - 4, 4, 2 * k - 1, 0);
  }

  lemma PageIsWord(q: word)
    requires IsPage(q)
    ensures PAGE <= q && q % 4 == 0
  {
    var k := q / PAGE;
    DivModUnique(q, 4, 1024 * k, 0);
  }

  lemma ListSafety(h: Heap)
    requires Inv(h)
    ensures IsList(h.pages.mem, h.pages.freelist, h.pages.nodes) && Distinct(h.pages.nodes)
    ensures forall q :: q in h.pages.nodes ==> IsPage(q)
  {
    ListAcyclic(h.pages.mem, h.pages.freelist, h.pages.nodes);
  }

  lemma FourBytes(m: Mem, a: nat)
    requires a % 4 == 0
    ensures Load(m, a) == LoadByte(m, a) + LoadByte(m, a + 1) * 0x100 + LoadByte(m, a + 2) * 0x1_0000
                          + LoadByte(m, a + 3) * 0x100_0000
    ensures forall b: nat :: a <= b < a + 4 ==> LoadByte(m, b) == GetByte(Load(m, a), b - a) < 0x100
  {
    hide GetByte;
    Disassembled(Load(m, a));
    assert (a + 1) % 4 == 1 && (a + 2) % 4 == 2 && (a + 3) % 4 == 3;
  }

  /** A word is as it was after clearing exactly when all its cleared bytes were 0. */
  lemma ClearedWord(m: Mem, a: nat, s: word, n: nat)
    requires a % 4 == 0 && s % 4 == 0 && n <= WORD_MOD
    ensures Load(FillBytes(m, s, 0, n), a) == Load(m, a) <==> Blank(m, a, s, n)
  {
    hide LoadByte, Covers, FillBytes;
    var m' := FillBytes(m, s, 0, n);
    FillBytesEffect(m, s, 0, n);
    FourBytes(m, a);
    FourBytes(m', a);
    assert Blank(m, a, s, n) <==> forall b: nat :: a <= b < a + 4 ==> LoadByte(m', b) == LoadByte(m, b);
  }

  lemma ClearedMetadata(h: Heap, x: word, s: word, n: nat)
    requires 16 <= x && (x - 8) % 4 == 0 && (x - 4) % 4 == 0 && s % 4 == 0 && n <= WORD_MOD
    ensures SameMetadata(h, x, FillBytes(h.pages.mem, s, 0, n)) <==> BlankMetadata(h.pages.mem, x, s, n)
  {
    hide Load, Blank, FillBytes;
    ClearedWord(h.pages.mem, x - 8, s, n);
    ClearedWord(h.pages.mem, x - 4, s, n);
  }

  /** Clearing memory keeps the heap whole exactly when there was nothing of it to clear. */
  lemma ClearingKeepsInv(h: Heap, s: word, n: nat)
    requires Inv(h) && s % 4 == 0 && n <= WORD_MOD
    ensures Inv(h.(pages := h.pages.(mem := FillBytes(h.pages.mem, s, 0, n)))) <==> NothingToClear(h, s, n)
  {
    hide Inv, Load, Blank, BlankMetadata, SameMetadata, FillBytes;
    var m := FillBytes(h.pages.mem, s, 0, n);
    MemoryFrame(h, m);
    HeapAddresses(h);
    forall q: word | q in h.pages.nodes
      ensures Load(m, q) == Load(h.pages.mem, q) <==> Blank(h.pages.mem, q, s, n)
    {
      ClearedWord(h.pages.mem, q, s, n);
    }
    forall x: word | x in h.live
      ensures SameMetadata(h, x, m) <==> BlankMetadata(h.pages.mem, x, s, n)
    {
      ClearedMetadata(h, x, s, n);
    }
  }

  /** malloc itself never harms the heap: a served one has room, and a failed one writes to
      addresses 0 and 4. */
  lemma MallocKeepsInv(h: Heap, size: word)
    requires Inv(h)
    ensures GoodAlignment(4)
    ensures Succeeds(h, 4, size) ==> Roomy(4, size)
    ensures !Succeeds(h, 4, size) ==> 8 !in h.live && MemalignSpec(h, 4, size).1 == 8
    ensures var (h', ptr) := MemalignSpec(h, 4, size); Inv(h') && ptr != 0 && ptr % 4 == 0
  {
    hide Inv, MemalignSpec, RoundedSize, Place;
    assert GoodAlignment(4);
    HeapAddresses(h);
    if Succeeds(h, 4, size) {
      MemalignTakes(h, 4, size);
      MemalignKeepsInv(h, 4, size);
      MemalignBlock(h, 4, size);
    } else {
      FailedMemalign(h, 4, size);
    }
  }

  /** Any calloc, whether served or not and whatever wraps, keeps the heap whole exactly when
      its zeros find nothing to clear in links and live metadata. */
  lemma CallocExactly(h: Heap, nmemb: word, size: word)
    requires Inv(h)
    ensures var total := Wrap(nmemb * size);
            var (h1, ptr) := MemalignSpec(h, 4, total);
            Inv(CallocSpec(h, nmemb, size).0) <==> NothingToClear(h1, ptr, total)
  {
    hide Inv, MemalignSpec, Roomy, Succeeds, GoodAlignment, FillBytes, NothingToClear;
    var total := Wrap(nmemb * size);
    MallocKeepsInv(h, total);
    ClearingKeepsInv(MemalignSpec(h, 4, total).0, MemalignSpec(h, 4, total).1, total);
  }

  /** A served calloc whose request does not wrap always keeps the heap whole. */
  lemma CallocClears(h: Heap, nmemb: word, size: word)
    requires Inv(h) && NoWrap(4, Wrap(nmemb * size)) && Succeeds(h, 4, Wrap(nmemb * size))
    ensures var (h', ptr) := CallocSpec(h, nmemb, size);
            var total := Wrap(nmemb * size);
            && Inv(h') && ptr in h'.live && ptr + total <= h'.live[ptr].base + h'.live[ptr].size
            && (forall a: nat :: ptr <= a < ptr + total ==> LoadByte(h'.pages.mem, a) == 0)
            && forall a: nat :: !(ptr <= a < ptr + total) ==>
                 LoadByte(h'.pages.mem, a) == LoadByte(MemalignSpec(h, 4, total).0.pages.mem, a)
  {
    hide MemalignSpec, Inv, NoWrap, Succeeds, Place, RoundedSize, LoadByte, Covers;
    var total := Wrap(nmemb * size);
    assert GoodAlignment(4);
    MemalignPlacement(h, 4, total);
    MemalignKeepsInv(h, 4, total);
    var (h1, ptr) := MemalignSpec(h, 4, total);
    LiveBlockFacts(h1, ptr);
    CoversRange(ptr, total);
    FillBytesEffect(h1.pages.mem, ptr, 0, total);
    WriteKeepsInv(h1, FillBytes(h1.pages.mem, ptr, 0, total));
  }

  /** A failed calloc gets the pointer 8, which is not NULL, and clears memory from there on;
      past the last address it goes on at 0. The heap survives exactly when that finds
      nothing to clear in links and live metadata, as it does when only page 0 is cleared. */
  lemma FailedCalloc(h: Heap, nmemb: word, size: word)
    requires Inv(h) && !Succeeds(h, 4, Wrap(nmemb * size))
    ensures var (h', ptr) := CallocSpec(h, nmemb, size);
            var total := Wrap(nmemb * size);
            && ptr == 8 && h' == h.(pages := h.pages.(mem := h'.pages.mem))
            && (forall a: nat :: Covers(8, total, a) ==> LoadByte(h'.pages.mem, a) == 0)
            && (forall a: nat :: 8 <= a && !Covers(8, total, a) ==>
                  LoadByte(h'.pages.mem, a) == LoadByte(h.pages.mem, a))
            && (Inv(h') <==> NothingToClear(h, 8, total))
            && (8 + total <= PAGE ==> Inv(h'))
  {
    hide MemalignSpec, Inv, Succeeds, LoadByte, Load, NothingToClear, Covers;
    var total := Wrap(nmemb * size);
    MallocKeepsInv(h, total);
    FailedMemalign(h, 4, total);
    var h1 := MemalignSpec(h, 4, total).0;
    FillBytesEffect(h1.pages.mem, 8, 0, total);
    HighBytes(h.pages.mem, h1.pages.mem);
    CallocExactly(h, nmemb, size);
    SameToClear(h, h1, total);
    NothingInPage0(h, total);
  }

  lemma HighBytes(m: Mem, m': Mem)
    requires forall a: nat :: a != 0 && a != 4 ==> Load(m', a) == Load(m, a)
    ensures forall a: nat :: 8 <= a ==> LoadByte(m', a) == LoadByte(m, a)
  {
    forall a: nat | 8 <= a
      ensures LoadByte(m', a) == LoadByte(m, a)
    {
      assert a - a % 4 >= 8;
    }
  }

  lemma SameToClear(h: Heap, h1: Heap, n: nat)
    requires Inv(h) && h1 == h.(pages := h.pages.(mem := h1.pages.mem))
    requires forall a: nat :: 8 <= a ==> LoadByte(h1.pages.mem, a) == LoadByte(h.pages.mem, a)
    ensures NothingToClear(h1, 8, n) <==> NothingToClear(h, 8, n)
  {
    hide Inv, LoadByte, Covers;
    HeapAddresses(h);
  }

  lemma NothingInPage0(h: Heap, n: nat)
    requires Inv(h)
    ensures 8 + n <= PAGE ==> NothingToClear(h, 8, n)
  {
    hide Inv, LoadByte;
    HeapAddresses(h);
  }

  // ----- runs -----

  /** malloc(size) is Memalign(4, size); alloc_page is AllocPages(0) and free_page(p)
      is FreePages(p, PAGE). Write stands for any writes by clients to what is theirs. */
  datatype Op =
    | Memalign(alignment: word, size: word)
    | Calloc(nmemb: word, size: word)
    | FreeBlock(ptr: word)
    | AllocPages(order: nat)
    | FreePages(p: word, size: word)
    | Write(mem: Mem)

  /** What a client has to respect. A memalign that is served needs room for its alignment. It
      may fail unless its alignment is itself the address of a live block, which no
      malloc's is. A calloc may wrap or fail if its zeros then hit nothing the heap needs. */
  ghost predicate Legal(h: Heap, op: Op) {
    match op
    case Memalign(alignment, size) =>
      && GoodAlignment(alignment)
      && if Succeeds(h, alignment, size) then Roomy(alignment, size) else Max(8, Effective(alignment)) !in h.live
    case Calloc(nmemb, size) =>
      var (h1, ptr) := MemalignSpec(h, 4, Wrap(nmemb * size));
      NothingToClear(h1, ptr, Wrap(nmemb * size))
    case FreeBlock(ptr) => ptr in h.live
    case AllocPages(order) => order < 32
    case FreePages(p, size) =>
      && IsPage(p) && size > 0 && size % PAGE == 0 && p + size <= WORD_MOD
      && Owns(h.owner, p, size / PAGE, Raw)
    case Write(mem) => ClientWrites(h, mem)
  }

  ghost function Apply(h: Heap, op: Op): Heap
    requires Legal(h, op)
  {
    match op
    case Memalign(alignment, size) => MemalignSpec(h, alignment, size).0
    case Calloc(nmemb, size) => CallocSpec(h, nmemb, size).0
    case FreeBlock(ptr) => if Decodes(h.pages.mem, ptr) then FreeSpec(h, ptr) else h
    case AllocPages(order) => TakeSpec(h, order).0
    case FreePages(p, size) => ReturnSpec(h, p, size)
    case Write(mem) => h.(pages := h.pages.(mem := mem))
  }

  ghost predicate Run(h: Heap, ops: seq<Op>, h': Heap)
    decreases |ops|
  {
    if ops == [] then h' == h else Legal(h, ops[0]) && Run(Apply(h, ops[0]), ops[1..], h')
  }

  /** Every malloc is legal. */
  lemma MallocIsLegal(h: Heap, size: word)
    requires Inv(h)
    ensures Legal(h, Op.Memalign(4, size))
  {
    hide Inv, Roomy, Succeeds, MemalignSpec;
    MallocKeepsInv(h, size);
  }

  /** A calloc that is served and does not wrap is legal. */
  lemma ServedCallocIsLegal(h: Heap, nmemb: word, size: word)
    requires Inv(h) && NoWrap(4, Wrap(nmemb * size)) && Succeeds(h, 4, Wrap(nmemb * size))
    ensures Legal(h, Calloc(nmemb, size))
  {
    hide Inv, NoWrap, Succeeds, MemalignSpec, CallocSpec, NothingToClear, LoadByte;
    CallocClears(h, nmemb, size);
    CallocExactly(h, nmemb, size);
  }

  /** For allocations these rules are exact: breaking them breaks the heap. */
  lemma LegalExactly(h: Heap, alignment: word, nmemb: word, size: word)
    requires Inv(h)
    ensures GoodAlignment(alignment) ==>
              (Inv(MemalignSpec(h, alignment, size).0) <==> Legal(h, Op.Memalign(alignment, size)))
    ensures Inv(CallocSpec(h, nmemb, size).0) <==> Legal(h, Calloc(nmemb, size))
  {
    hide Inv, MemalignSpec, CallocSpec, Roomy, Succeeds, GoodAlignment, NothingToClear;
    CallocExactly(h, nmemb, size);
    if GoodAlignment(alignment) {
      if Succeeds(h, alignment, size) {
        ServedMemalign(h, alignment, size);
      } else {
        FailedMemalign(h, alignment, size);
      }
    }
  }

  lemma StepKeepsInv(h: Heap, op: Op)
    requires Inv(h) && Legal(h, op)
    ensures Inv(Apply(h, op))
  {
    hide Inv, MemalignSpec, CallocSpec, FreeSpec, TakeSpec, Roomy, Succeeds, Owns, ClientWrites;
    hide NothingToClear;
    match op
    case Memalign(alignment, size) =>
      if Succeeds(h, alignment, size) {
        MemalignKeepsInv(h, alignment, size);
      } else {
        FailedMemalign(h, alignment, size);
      }
    case Calloc(nmemb, size) => CallocExactly(h, nmemb, size);
    case FreeBlock(ptr) => FreeKeepsInv(h, ptr);
    case AllocPages(order) => TakeSpecKeepsInv(h, order);
    case FreePages(p, size) => ReleaseKeepsInv(h, p, size, Raw);
    case Write(mem) => WriteKeepsInv(h, mem);
  }

  /** The pool is the same and whatever was leaked still is. */
  ghost predicate PoolKept(h: Heap, h': Heap) {
    && h'.owner.Keys == h.owner.Keys
    && forall q: word :: q in h.owner && h.owner[q] == Leaked ==> h'.owner[q] == Leaked
  }

  lemma GiveKeepsPool(h: Heap, h': Heap, p: word, n: nat, from: Owner, to: Owner)
    requires Inv(h) && Owns(h.owner, p, n, from) && from != Leaked
    requires h'.owner == Give(h.owner, p, n, to)
    ensures PoolKept(h, h')
  {
  }

  lemma MemalignKeepsPool(h: Heap, alignment: word, size: word)
    requires Inv(h) && Legal(h, Memalign(alignment, size))
    ensures PoolKept(h, MemalignSpec(h, alignment, size).0)
  {
    hide MemalignSpec, Roomy, Inv, GoodAlignment, AllocPagesSpec;
    if Succeeds(h, alignment, size) {
      MemalignBlock(h, alignment, size);
      MemalignState(h, alignment, size);
      var (h', ptr) := MemalignSpec(h, alignment, size);
      var b := h'.live[ptr];
      TakenBlock(h, b.order);
      GiveKeepsPool(h, h', b.base, Pow2(b.order), Owner.Free, Held(ptr));
    } else {
      FailedMemalign(h, alignment, size);
    }
  }

  lemma PoolIsPages(h: Heap)
    requires Inv(h)
    ensures forall q: word :: q in h.owner ==> IsPage(q)
  {
  }

  lemma FreeKeepsPool(h: Heap, ptr: word)
    requires Inv(h) && ptr in h.live
    ensures Decodes(h.pages.mem, ptr) && PoolKept(h, FreeSpec(h, ptr))
  {
    hide Inv, IsList, Pow2, OrderFor, FreePagesSpec, Decodes, BlockBegin, BlockSize;
    FreeDecodes(h, ptr);
    LiveBlockFacts(h, ptr);
    PoolIsPages(h);
  }

  /** No operation changes the pool, and a leaked page stays leaked. */
  lemma StepKeepsPool(h: Heap, op: Op)
    requires Inv(h) && Legal(h, op)
    ensures PoolKept(h, Apply(h, op))
  {
    hide Inv, MemalignSpec, FreeSpec, AllocPagesSpec, FreePagesSpec, Roomy, Succeeds, ClientWrites;
    hide NothingToClear;
    match op
    case Memalign(alignment, size) => MemalignKeepsPool(h, alignment, size);
    case Calloc(nmemb, size) =>
      MallocIsLegal(h, Wrap(nmemb * size));
      MemalignKeepsPool(h, 4, Wrap(nmemb * size));
    case FreeBlock(ptr) => FreeKeepsPool(h, ptr);
    case AllocPages(order) =>
      if AllocPagesSpec(h.pages, order).1 != 0 {
        TakenBlock(h, order);
        GiveKeepsPool(h, TakeSpec(h, order).0, AllocPagesSpec(h.pages, order).1, Pow2(order), Owner.Free, Raw);
      }
    case FreePages(p, size) => GiveKeepsPool(h, ReturnSpec(h, p, size), p, size / PAGE, Raw, Owner.Free);
    case Write(mem) =>
  }

  /** Heap safety over whole runs: from any good heap, any sequence of operations by
      clients that write only inside their own blocks ends in a good heap over the same
      pool, in which every page lost on the way is still lost. */
  lemma {:induction false} RunKeepsInv(h: Heap, ops: seq<Op>, h': Heap)
    requires Inv(h) && Run(h, ops, h')
    ensures Inv(h') && PoolKept(h, h')
    decreases |ops|
  {
    if ops != [] {
      StepKeepsInv(h, ops[0]);
      StepKeepsPool(h, ops[0]);
      RunKeepsInv(Apply(h, ops[0]), ops[1..], h');
    }
  }

  lemma {:induction false} DistinctCount(nodes: seq<word>, pages: set<word>)
    requires Distinct(nodes) && forall q: word :: q in pages <==> q in nodes
    ensures |pages| == |nodes|
    decreases |nodes|
  {
    if nodes == [] {
      assert pages == {};
    } else {
      var last := nodes[|nodes| - 1];
      var rest := nodes[..|nodes| - 1];
      assert forall q: word :: q in pages - {last} <==> q in rest;
      DistinctCount(rest, pages - {last});
    }
  }

  /** Pages of the pool that are not free: held by a block, taken by a client, or lost. */
  function Owned(h: Heap): set<word> {
    set q | q in h.owner && !h.owner[q].Free?
  }

  /** After any run the free pages and the pages with another owner add up to the pool the
      run started from. */
  lemma RunConservesPages(h: Heap, ops: seq<Op>, h': Heap)
    requires Inv(h) && Run(h, ops, h')
    ensures |h'.pages.nodes| + |Owned(h')| == |h.owner| == |h.pages.nodes| + |Owned(h)|
  {
    RunKeepsInv(h, ops, h');
    PagesAddUp(h);
    PagesAddUp(h');
    assert |h.owner| == |h.owner.Keys| && |h'.owner| == |h'.owner.Keys|;
  }

  lemma PagesAddUp(h: Heap)
    requires Inv(h)
    ensures |h.pages.nodes| + |Owned(h)| == |h.owner.Keys|
  {
    hide IsList;
    var free := h.owner.Keys - Owned(h);
    ListAcyclic(h.pages.mem, h.pages.freelist, h.pages.nodes);
    DistinctCount(h.pages.nodes, free);
  }

  /** Blocks x and y have no page in common, and no page of x is free. */
  ghost predicate Apart(h: Heap, x: word, y: word)
    requires x in h.live && y in h.live
  {
    forall a: word :: InBlock(h.live[x].base, Pow2(h.live[x].order), a) ==>
      !InBlock(h.live[y].base, Pow2(h.live[y].order), a) && PageAt(a) !in h.pages.nodes
  }

  lemma LiveBlocksApart(h: Heap, x: word, y: word)
    requires Inv(h) && x in h.live && y in h.live && x != y
    ensures Apart(h, x, y)
  {
    hide Inv, PageAt, Pow2;
    forall a: word | InBlock(h.live[x].base, Pow2(h.live[x].order), a)
      ensures !InBlock(h.live[y].base, Pow2(h.live[y].order), a) && PageAt(a) !in h.pages.nodes
    {
      LiveBlocksDisjoint(h, x, y, a);
    }
  }

  /** What the invariant says at the end of every run: the list has no cycle and no page
      twice, live blocks have no page in common with each other or with the list, and
      the words in front of every live pointer decode to its own block. */
  lemma RunSafety(h: Heap, ops: seq<Op>, h': Heap)
    requires Inv(h) && Run(h, ops, h')
    ensures IsList(h'.pages.mem, h'.pages.freelist, h'.pages.nodes) && Distinct(h'.pages.nodes)
    ensures forall q :: q in h'.pages.nodes ==> IsPage(q)
    ensures forall x: word, y: word :: x in h'.live && y in h'.live && x != y ==> Apart(h', x, y)
    ensures forall x: word :: x in h'.live ==>
              BlockBegin(h'.pages.mem, x) == h'.live[x].base && BlockSize(h'.pages.mem, x) == h'.live[x].size
  {
    hide Inv, IsList, BlockBegin, BlockSize, Run, Apart, PoolKept, Distinct, IsPage;
    RunKeepsInv(h, ops, h');
    ListSafety(h');
    forall x: word | x in h'.live
      ensures BlockBegin(h'.pages.mem, x) == h'.live[x].base && BlockSize(h'.pages.mem, x) == h'.live[x].size
    {
      FreeDecodes(h', x);
    }
    forall x: word, y: word | x in h'.live && y in h'.live && x != y
      ensures Apart(h', x, y)
    {
      LiveBlocksApart(h', x, y);
    }
  }

  // ----- what a failed allocation costs -----

  /** Freeing the pointer a failed memalign returned makes the free list unreachable: its
      metadata decodes to a block at address 0, and the list becomes empty. */
  lemma FreeAfterFailure(h: Heap, alignment: word, size: word)
    requires Inv(h) && GoodAlignment(alignment) && !Succeeds(h, alignment, size)
    ensures var (h', ptr) := MemalignSpec(h, alignment, size);
            && BlockBegin(h'.pages.mem, ptr) == 0
            && BlockSize(h'.pages.mem, ptr) == RoundedSize(alignment, size)
            && Decodes(h'.pages.mem, ptr)
            && var after := FreePagesSpec(h'.pages, BlockBegin(h'.pages.mem, ptr), BlockSize(h'.pages.mem, ptr));
               after.freelist == 0 && after.nodes == [] && after.Valid()
  {
    hide Inv, RoundedSize, Place, GoodAlignment, Succeeds, MemalignSpec, FreePagesSpec;
    FailedMemalign(h, alignment, size);
    RoundedIsPages(alignment, size);
    FailedMetadata(h, alignment, size);
    FreedAtNull(MemalignSpec(h, alignment, size).0.pages, RoundedSize(alignment, size));
  }

  lemma FailedMetadata(h: Heap, alignment: word, size: word)
    requires !Succeeds(h, alignment, size) && MemalignSpec(h, alignment, size).1 >= 8
    ensures var (h', ptr) := MemalignSpec(h, alignment, size);
            && Load(h'.pages.mem, ptr - 8) == ptr
            && Load(h'.pages.mem, ptr - 4) == RoundedSize(alignment, size)
  {
    hide RoundedSize, Place, PageMemalignSpec;
    RoundedIsPages(alignment, size);
  }

  lemma FreedAtNull(s: PageState, size: word)
    requires size % PAGE == 0
    ensures var s' := FreePagesSpec(s, 0, size); s'.freelist == 0 && s'.nodes == [] && s'.Valid()
  {
  }
}
