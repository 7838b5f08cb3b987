/** The kernel heap as a state machine: the page list and memory, together with the
    bookkeeping of who owns each page and which blocks are live. The operations are
    those of alloc.c over the page backend and the page operations clients may call. */
module HeapModel {
  import opened Words
  import opened PageList
  import opened PageAlloc

  const METADATA := 8

  /** Every page of the pool has exactly one owner. Leaked pages belong to nobody and
      no operation can hand them out again. */
  datatype Owner = Free | Held(ptr: word) | Raw | Leaked

  /** A live block: where the backend put it, the rounded size stored beside it, and
      the order of the page block that was taken for it. */
  datatype Block = Block(base: word, size: word, order: nat)

  datatype Heap = Heap(pages: PageState, owner: map<word, Owner>, live: map<word, Block>)

  // ----- sizes and placement -----

  /** memalign never aligns to less than a word. */
  function Effective(alignment: word): word {
    if alignment <= 4 then 4 else alignment
  }

  /** Bytes memalign needs for the request: the request, room to align, and two words. */
  function Needed(alignment: word, size: word): nat {
    size + (if alignment <= 4 then 0 else alignment - 1) + METADATA
  }

  /** The size memalign asks the backend for, with the source's wrap-around. */
  function RoundedSize(alignment: word, size: word): word {
    Align(Wrap(Unrounded(alignment, size)), PAGE)
  }

  function Unrounded(alignment: word, size: word): nat {
    (if alignment <= 4 then size else Wrap(size + Wrap(alignment - 1))) + METADATA
  }

  predicate NoWrap(alignment: word, size: word) {
    Needed(alignment, size) + PAGE <= WORD_MOD
  }

  /** The rounded size has room behind the metadata and one alignment. */
  predicate Roomy(alignment: word, size: word) {
    Max(8, Effective(alignment)) < RoundedSize(alignment, size)
  }

  ghost predicate GoodAlignment(alignment: word) {
    alignment <= 4 || IsPow2(alignment)
  }

  /** The address memalign returns for a backend block at p. */
  function Place(p: word, alignment: word): word {
    Align(Wrap(p + METADATA), Effective(alignment))
  }

  /** Sizes are rounded to whole pages whatever wraps. */
  lemma RoundedIsPages(alignment: word, size: word)
    ensures RoundedSize(alignment, size) % PAGE == 0
    ensures RoundedSize(alignment, size) <= WORD_MOD - PAGE
  {
    AlignToPage(Wrap(Unrounded(alignment, size)));
  }

  /** Without wrap-around the rounded size is the least number of pages that holds the request. */
  lemma RoundedHolds(alignment: word, size: word)
    requires NoWrap(alignment, size)
    ensures Needed(alignment, size) <= RoundedSize(alignment, size) < Needed(alignment, size) + PAGE
  {
    NoWrapSize(alignment, size);
    AlignToPage(Needed(alignment, size));
  }

  lemma NoWrapSize(alignment: word, size: word)
    requires NoWrap(alignment, size)
    ensures Wrap(Unrounded(alignment, size)) == Needed(alignment, size)
  {
  }

  /** When the request wraps, the rounded size is too small: the block holds the request
      exactly when no step of the size computation wraps, and then it is the least number of pages
      for the bytes asked for, the room to align and the two words. */
  lemma RoundedHoldsExactly(alignment: word, size: word)
    ensures NoWrap(alignment, size) <==> Needed(alignment, size) <= RoundedSize(alignment, size)
    ensures var (n, r) := (size + (if alignment > 4 then alignment - 1 else 0) + 8, RoundedSize(alignment, size));
            && r % 4096 == 0 && (n + 4096 <= 0x1_0000_0000 <==> n <= r)
            && (n + 4096 <= 0x1_0000_0000 ==> r < n + 4096)
  {
    RoundedIsPages(alignment, size);
    if NoWrap(alignment, size) {
      RoundedHolds(alignment, size);
    }
  }

  lemma NoWrapIsRoomy(alignment: word, size: word)
    requires NoWrap(alignment, size)
    ensures Roomy(alignment, size)
  {
    hide RoundedSize;
    RoundedHolds(alignment, size);
    RoundedIsPages(alignment, size);
  }

  /** Where the result lies in a block whose address is aligned to what was asked of the
      backend: right behind the metadata, or a whole alignment into the block. */
  lemma PlaceInBlock(p: word, alignment: word)
    requires GoodAlignment(alignment)
    requires p % Effective(alignment) == 0 && p % 8 == 0
    requires p + 2 * Max(8, Effective(alignment)) <= WORD_MOD
    ensures Place(p, alignment) == p + Max(8, Effective(alignment))
    ensures Place(p, alignment) % Effective(alignment) == 0 && Place(p, alignment) % 8 == 0
  {
    hide Align;
    var k := AlignmentLog(alignment);
    assert Pow2(3) == 8;
    assert Wrap(p + METADATA) == p + METADATA;
    if k <= 3 {
      Pow2Monotone(k, 3);
      PlaceSmall(p, k);
    } else {
      Pow2Monotone(3, k);
      PlaceLarge(p, Effective(alignment), k);
    }
  }

  lemma PlaceLarge(p: word, a: word, k: nat)
    requires 3 < k <= 31 && a == Pow2(k) && p % a == 0 && 8 <= a && p + 2 * a <= WORD_MOD
    ensures Align(p + METADATA, a) == p + a
    ensures (p + a) % a == 0 && (p + a) % 8 == 0
  {
    hide Align, Pow2;
    AlignNext(p, 8, k);
    NextIsMultiple(p, k);
  }

  lemma PlaceSmall(p: word, k: nat)
    requires 2 <= k <= 3 && p % 8 == 0 && p + 16 <= WORD_MOD
    ensures Pow2(2) == 4 && Pow2(3) == 8
    ensures Pow2(k) < WORD_MOD && Align(p + 8, Pow2(k)) == p + 8
    ensures (p + 8) % Pow2(k) == 0 && (p + 8) % 8 == 0
  {
    hide Align;
    assert Pow2(2) == 4 && Pow2(3) == 8;
    var j := p / 8;
    DivModUnique(p + 8, 8, j + 1, 0);
    DivModUnique(p + 8, 4, 2 * j + 2, 0);
    AlignFixed(p + 8, k);
  }

  lemma AlignmentLog(alignment: word) returns (k: nat)
    requires GoodAlignment(alignment)
    ensures 2 <= k <= 31 && Effective(alignment) == Pow2(k)
  {
    assert Pow2(2) == 4;
    if alignment <= 4 {
      k := 2;
    } else {
      k :| alignment == Pow2(k);
      Pow2StrictlyMonotone(k, 32);
      Pow2StrictlyMonotone(2, k);
      Pow2At32();
    }
  }

  /** A pointer aligned to what memalign makes of the alignment has the one asked for. */
  lemma AlignedAsAsked(alignment: word, ptr: word)
    requires ptr % Effective(alignment) == 0
    ensures ptr % 4 == 0 || alignment > 4
    ensures alignment != 0 && alignment != 3 ==> ptr % alignment == 0
  {
    if alignment == 1 || alignment == 2 {
      var q := ptr / 4;
      assert ptr == 2 * (2 * q);
    }
  }

  lemma NextIsMultiple(p: nat, k: nat)
    requires 3 <= k && p % Pow2(k) == 0
    ensures (p + Pow2(k)) % Pow2(k) == 0 && (p + Pow2(k)) % 8 == 0
  {
    DivMod(p, Pow2(k));
    DivModUnique(p + Pow2(k), Pow2(k), p / Pow2(k) + 1, 0);
    assert Pow2(3) == 8;
    ModPow2Weaken(p + Pow2(k), 3, k);
  }

  // ----- the invariant -----

  ghost predicate BlockOk(h: Heap, ptr: word, b: Block) {
    && IsPage(b.base) && b.base + Pow2(b.order) * PAGE <= WORD_MOD
    && b.size % PAGE == 0 && 0 < b.size <= Pow2(b.order) * PAGE && b.order == OrderFor(b.size / PAGE)
    && ptr % 8 == 0 && b.base + METADATA <= ptr < b.base + b.size
    && Load(h.pages.mem, ptr - 8) == ptr - b.base
    && Load(h.pages.mem, ptr - 4) == b.size
    && Owns(h.owner, b.base, Pow2(b.order), Held(ptr))
  }

  ghost predicate Owns(owner: map<word, Owner>, p: word, n: nat, who: Owner) {
    forall q: word :: q % PAGE == 0 && InBlock(p, n, q) ==> q in owner && owner[q] == who
  }

  /** The free list is exactly the set of free pages, and every live block owns all its
      pages and still has its two metadata words. */
  ghost predicate Inv(h: Heap) {
    && h.pages.Valid()
    && (forall q: word :: q in h.owner ==> IsPage(q))
    && (forall q: word :: q in h.pages.nodes <==> q in h.owner && h.owner[q].Free?)
    && (forall ptr: word :: ptr in h.live ==> BlockOk(h, ptr, h.live[ptr]))
  }

  /** The page an address lies in. */
  function PageAt(a: word): word {
    a - a % PAGE
  }

  /** The page of an address in a live block is held under the block's pointer. */
  lemma BlockPage(h: Heap, x: word, a: word)
    requires Inv(h) && x in h.live
    ensures InBlock(h.live[x].base, Pow2(h.live[x].order), a) ==>
              PageAt(a) in h.owner && h.owner[PageAt(a)] == Held(x)
  {
    hide IsList, Pow2, OrderFor;
    var b := h.live[x];
    assert BlockOk(h, x, b);
    if InBlock(b.base, Pow2(b.order), a) {
      PageOf(b.base, Pow2(b.order), a);
    }
  }

  lemma FreePage(h: Heap, q: word)
    requires Inv(h)
    ensures q in h.pages.nodes <==> q in h.owner && h.owner[q].Free?
  {
  }

  /** Two live blocks have no page in common, and no page of a live block is free. */
  lemma LiveBlocksDisjoint(h: Heap, x: word, y: word, a: word)
    requires Inv(h) && x in h.live && y in h.live
    requires InBlock(h.live[x].base, Pow2(h.live[x].order), a)
    ensures PageAt(a) !in h.pages.nodes
    ensures x != y ==> !InBlock(h.live[y].base, Pow2(h.live[y].order), a)
  {
    hide Inv, InBlock;
    BlockPage(h, x, a);
    BlockPage(h, y, a);
    FreePage(h, PageAt(a));
  }

  function Give(owner: map<word, Owner>, p: word, n: nat, who: Owner): (r: map<word, Owner>)
    ensures r.Keys == owner.Keys
  {
    map q | q in owner :: if InBlock(p, n, q) then who else owner[q]
  }

  // ----- the operations -----

  /** memalign: take pages, place the result, write the two metadata words. The backend's
      NULL is not looked at: the words are then written below address PAGE or so, and a
      pointer is returned all the same. */
  ghost function MemalignSpec(h: Heap, alignment: word, size: word): (Heap, word) {
    RoundedIsPages(alignment, size);
    var rounded := RoundedSize(alignment, size);
    var (pages, p) := PageMemalignSpec(h.pages, rounded);
    var ptr := Place(p, alignment);
    var mem := pages.mem[Wrap(ptr - 8) as nat := Wrap(ptr - p)][Wrap(ptr - 4) as nat := rounded];
    if p == 0 then (h.(pages := pages.(mem := mem)), ptr)
    else
      PagesIn(rounded);
      var order := OrderFor(PageCount(rounded));
      (Heap(pages.(mem := mem), Give(h.owner, p, Pow2(order), Held(ptr)), h.live[ptr := Block(p, rounded, order)]), ptr)
  }

  /** The backend finds pages for the request. */
  ghost predicate Succeeds(h: Heap, alignment: word, size: word) {
    RoundedIsPages(alignment, size);
    PageMemalignSpec(h.pages, RoundedSize(alignment, size)).1 != 0
  }

  /** What free reads from the two words in front of its argument. */
  function BlockBegin(m: Mem, ptr: word): word {
    Wrap(ptr - Load(m, Wrap(ptr - 8)))
  }

  function BlockSize(m: Mem, ptr: word): word {
    Load(m, Wrap(ptr - 4))
  }

  /** The words in front of a pointer describe whole pages inside memory. */
  predicate Decodes(m: Mem, ptr: word) {
    BlockSize(m, ptr) % PAGE == 0 && BlockBegin(m, ptr) + BlockSize(m, ptr) <= WORD_MOD
  }

  /** free gives back the rounded size; pages of the block beyond it are lost. */
  ghost function FreeSpec(h: Heap, ptr: word): Heap
    requires ptr in h.live && Decodes(h.pages.mem, ptr)
  {
    var base, size := BlockBegin(h.pages.mem, ptr), BlockSize(h.pages.mem, ptr);
    var b := h.live[ptr];
    var released := Give(Give(h.owner, b.base, Pow2(b.order), Leaked), b.base, size / PAGE, Free);
    Heap(FreePagesSpec(h.pages, base, size), released, h.live - {ptr})
  }

  /** A client takes pages directly. */
  ghost function TakeSpec(h: Heap, order: nat): (Heap, word) {
    var (pages, p) := AllocPagesSpec(h.pages, order);
    if p == 0 then (h, p) else (h.(pages := pages, owner := Give(h.owner, p, Pow2(order), Raw)), p)
  }

  /** A client returns pages it took. */
  ghost function ReturnSpec(h: Heap, p: word, size: word): Heap
    requires size % PAGE == 0 && p + size <= WORD_MOD
  {
    h.(pages := FreePagesSpec(h.pages, p, size), owner := Give(h.owner, p, size / PAGE, Free))
  }

  // ----- memory and ownership -----

  /** The page of an address inside a block is one of the block's pages. */
  lemma PageOf(p: word, n: nat, a: nat)
    requires p % PAGE == 0 && p + n * PAGE <= WORD_MOD && InBlock(p, n, a)
    ensures a < WORD_MOD && PageAt(a) % PAGE == 0 && InBlock(p, n, PageAt(a))
  {
  }

  /** The words in front of a live pointer are the same in m. */
  ghost predicate SameMetadata(h: Heap, ptr: word, m: Mem) {
    8 <= ptr && Load(m, ptr - 8) == Load(h.pages.mem, ptr - 8) && Load(m, ptr - 4) == Load(h.pages.mem, ptr - 4)
  }

  /** A write keeps the invariant exactly when it changes neither links nor live metadata. */
  lemma MemoryFrame(h: Heap, m: Mem)
    requires Inv(h)
    ensures Inv(h.(pages := h.pages.(mem := m))) <==>
            && (forall q: word :: q in h.pages.nodes ==> Load(m, q) == Load(h.pages.mem, q))
            && (forall ptr: word :: ptr in h.live ==> SameMetadata(h, ptr, m))
  {
    var h' := h.(pages := h.pages.(mem := m));
    forall ptr: word | ptr in h.live
      ensures BlockOk(h', ptr, h.live[ptr]) <==> SameMetadata(h, ptr, m)
    {
      assert BlockOk(h, ptr, h.live[ptr]);
    }
    if Inv(h') {
      forall q: word | q in h.pages.nodes
        ensures Load(m, q) == Load(h.pages.mem, q)
      {
        var i :| 0 <= i < |h.pages.nodes| && h.pages.nodes[i] == q;
        assert Load(m, h.pages.nodes[i]) == LinkTo(h.pages.nodes, i + 1) == Load(h.pages.mem, h.pages.nodes[i]);
      }
    }
  }

  /** No link of the free list lies on the metadata of a live block. */
  lemma MetadataOffTheList(h: Heap, ptr: word)
    requires Inv(h) && ptr in h.live
    ensures 8 <= ptr && ptr - 8 !in h.pages.nodes && ptr - 4 !in h.pages.nodes
  {
  }

  /** What taking 2^order pages does to the list, seen as a set, and to memory. */
  lemma TakenBlock(h: Heap, order: nat)
    requires Inv(h) && AllocPagesSpec(h.pages, order).1 != 0
    ensures var (pages, p) := AllocPagesSpec(h.pages, order);
            && pages.Valid()
            && IsPage(p) && Aligned(p, order) && p + Pow2(order) * PAGE <= WORD_MOD
            && Owns(h.owner, p, Pow2(order), Free)
            && (forall q: word :: q in pages.nodes <==> q in h.pages.nodes && !InBlock(p, Pow2(order), q))
            && (forall a: nat :: a !in h.pages.nodes ==> Load(pages.mem, a) == Load(h.pages.mem, a))
  {
    var (pages, p) := AllocPagesSpec(h.pages, order);
    AllocPagesKeepsList(h.pages, order);
    ListAcyclic(h.pages.mem, h.pages.freelist, h.pages.nodes);
    var k := AllocPagesSplice(h.pages, order);
    SpliceMembers(h.pages.nodes, pages.nodes[..k], p, Pow2(order), pages.nodes[k..]);
    assert pages.nodes == pages.nodes[..k] + pages.nodes[k..];
    forall q: word | q % PAGE == 0 && InBlock(p, Pow2(order), q)
      ensures q in h.owner && h.owner[q] == Free
    {
      assert q in h.pages.nodes;
    }
  }

  lemma SpliceMembers(nodes: seq<word>, left: seq<word>, p: word, n: nat, right: seq<word>)
    requires p % PAGE == 0 && p + n * PAGE <= WORD_MOD
    requires nodes == left + Pages(p, n) + right && Distinct(nodes)
    requires forall q :: q in nodes ==> IsPage(q)
    ensures forall q: word :: q in left + right <==> q in nodes && !InBlock(p, n, q)
    ensures forall q: word :: q % PAGE == 0 && InBlock(p, n, q) ==> q in nodes
  {
    var block := Pages(p, n);
    assert forall q: word :: q in nodes <==> q in left || q in block || q in right;
    assert forall q: word :: q in left + right <==> q in left || q in right;
    PagesMembers(p, n);
    forall q: word | q in left + right
      ensures q !in block
    {
      var i :| 0 <= i < |left + right| && (left + right)[i] == q;
      var j := if i < |left| then i else i + n;
      assert nodes[j] == q;
      assert forall t :: 0 <= t < n ==> block[t] == nodes[|left| + t];
    }
  }

  /** Handing free pages to an owner keeps the invariant. */
  lemma TakeKeepsInv(h: Heap, order: nat, who: Owner)
    requires Inv(h) && AllocPagesSpec(h.pages, order).1 != 0 && who != Free
    ensures var (pages, p) := AllocPagesSpec(h.pages, order);
            Inv(Heap(pages, Give(h.owner, p, Pow2(order), who), h.live))
  {
    var (pages, p) := AllocPagesSpec(h.pages, order);
    TakenBlock(h, order);
    var h' := Heap(pages, Give(h.owner, p, Pow2(order), who), h.live);
    forall ptr: word | ptr in h.live
      ensures BlockOk(h', ptr, h.live[ptr])
    {
      assert BlockOk(h, ptr, h.live[ptr]);
      MetadataOffTheList(h, ptr);
    }
  }

  // ----- memalign -----

  /** A naturally aligned block larger than the alignment asked for has that alignment,
      although the backend never looks at it. */
  lemma NaturalAlignmentCovers(p: word, order: nat, alignment: word)
    requires IsPage(p) && Aligned(p, order) && p + Pow2(order) * PAGE <= WORD_MOD
    requires GoodAlignment(alignment) && alignment < Pow2(order) * PAGE
    ensures p % Effective(alignment) == 0 && p % 8 == 0
    ensures p % Max(Effective(alignment), PAGE) == 0
    ensures p + 2 * Max(8, Effective(alignment)) <= WORD_MOD
  {
    hide Pow2;
    var k := AlignmentLog(alignment);
    BytesOfOrder(order);
    AlignedTo(p, k, order + 12);
    CoverFacts(p, Effective(alignment), Pow2(order + 12));
  }

  lemma AlignedTo(p: nat, k: nat, j: nat)
    requires p % Pow2(j) == 0 && Pow2(k) < Pow2(j)
    ensures p % Pow2(k) == 0 && 2 * Pow2(k) <= Pow2(j)
  {
    Pow2StrictlyMonotone(k, j);
    ModPow2Weaken(p, k, j);
    Pow2Monotone(k + 1, j);
    assert Pow2(k + 1) == 2 * Pow2(k);
  }

  lemma CoverFacts(p: word, a: word, size: nat)
    requires IsPage(p) && 0 < a && p % a == 0 && 2 * a <= size && p + size <= WORD_MOD && PAGE <= size
    ensures p % 8 == 0 && p % Max(a, PAGE) == 0 && p + 2 * Max(8, a) <= WORD_MOD
  {
  }

  /** The block a served memalign takes, whatever wraps: the least power of two of pages for the
      rounded size, naturally aligned. */
  lemma MemalignTakes(h: Heap, alignment: word, size: word)
    requires Inv(h) && Succeeds(h, alignment, size)
    ensures var (h', ptr) := MemalignSpec(h, alignment, size);
            && ptr in h'.live
            && var b := h'.live[ptr];
               && b == Block(b.base, RoundedSize(alignment, size), b.order) && ptr == Place(b.base, alignment)
               && b.size % PAGE == 0 && b.size > 0 && b.order == OrderFor(b.size / PAGE)
               && b.size / PAGE <= Pow2(b.order) < 2 * (b.size / PAGE)
               && IsPage(b.base) && Aligned(b.base, b.order) && b.base + Pow2(b.order) * PAGE <= WORD_MOD
               && AllocPagesSpec(h.pages, b.order).1 == b.base
  {
    hide Place, RoundedSize, Align, Inv;
    RoundedIsPages(alignment, size);
    var rounded := RoundedSize(alignment, size);
    PagesIn(rounded);
    var order := OrderFor(PageCount(rounded));
    OrderForIsTight(PageCount(rounded));
    TakenBlock(h, order);
  }

  /** Where the result lies in a naturally aligned block: behind the metadata or one alignment
      into it, when that is inside the rounded size; otherwise outside. */
  lemma PlaceInNaturalBlock(p: word, order: nat, rounded: nat, alignment: word)
    requires IsPage(p) && Aligned(p, order) && p + Pow2(order) * PAGE <= WORD_MOD
    requires GoodAlignment(alignment) && PAGE <= rounded <= Pow2(order) * PAGE
    ensures Max(8, Effective(alignment)) < rounded ==>
              && Place(p, alignment) == p + Max(8, Effective(alignment))
              && Place(p, alignment) % Effective(alignment) == 0 && Place(p, alignment) % 8 == 0
              && p % Max(Effective(alignment), PAGE) == 0
    ensures Max(8, Effective(alignment)) >= rounded ==>
              !(p + METADATA <= Place(p, alignment) < p + rounded)
  {
    hide Place, Pow2, Aligned;
    if Effective(alignment) < Pow2(order) * PAGE {
      NaturalAlignmentCovers(p, order, alignment);
      PlaceInBlock(p, alignment);
    } else {
      PlaceOutside(p, order, alignment);
    }
  }

  lemma PlaceOutside(p: word, order: nat, alignment: word)
    requires Aligned(p, order) && GoodAlignment(alignment) && Effective(alignment) >= Pow2(order) * PAGE
    ensures !(p + METADATA <= Place(p, alignment) < p + Pow2(order) * PAGE)
  {
    hide Align, Pow2;
    var k := AlignmentLog(alignment);
    BytesOfOrder(order);
    Pow2StrictlyMonotone(k, order + 12);
    AlignMultiple(Wrap(p + METADATA), k);
    ModPow2Weaken(Place(p, alignment), order + 12, k);
    if p <= Place(p, alignment) < p + Pow2(order + 12) {
      MultiplesApart(p, Place(p, alignment), Pow2(order + 12));
    }
  }

  /** What a served memalign returns when the rounded size has room for it. The block is aligned
      to what was asked of the backend, the result is aligned, and the metadata and the
      result lie inside the rounded size. */
  lemma MemalignBlock(h: Heap, alignment: word, size: word)
    requires Inv(h) && GoodAlignment(alignment) && Roomy(alignment, size) && Succeeds(h, alignment, size)
    ensures var (h', ptr) := MemalignSpec(h, alignment, size);
            && ptr in h'.live
            && var b := h'.live[ptr];
               && b == Block(b.base, RoundedSize(alignment, size), b.order)
               && ptr % Effective(alignment) == 0 && ptr % 8 == 0
               && (alignment != 0 && alignment != 3 ==> ptr % alignment == 0)
               && ptr == b.base + Max(8, Effective(alignment)) < b.base + b.size
               && b.base % Max(Effective(alignment), PAGE) == 0
               && b.size % PAGE == 0 && b.size > 0 && b.order == OrderFor(b.size / PAGE)
               && b.size / PAGE <= Pow2(b.order) < 2 * (b.size / PAGE)
               && AllocPagesSpec(h.pages, b.order).1 == b.base != 0
  {
    hide MemalignSpec, Place, RoundedSize, Align, Inv, Pow2, OrderFor, AllocPagesSpec, GoodAlignment, Succeeds;
    MemalignTakes(h, alignment, size);
    var (h', ptr) := MemalignSpec(h, alignment, size);
    var b := h'.live[ptr];
    PlaceInNaturalBlock(b.base, b.order, b.size, alignment);
    AlignedAsAsked(alignment, ptr);
  }

  /** Without wrap-around the whole request lies inside the rounded size, too. */
  lemma MemalignPlacement(h: Heap, alignment: word, size: word)
    requires Inv(h) && GoodAlignment(alignment) && NoWrap(alignment, size) && Succeeds(h, alignment, size)
    ensures Roomy(alignment, size)
    ensures var (h', ptr) := MemalignSpec(h, alignment, size);
            && ptr in h'.live
            && var b := h'.live[ptr];
               && b == Block(b.base, RoundedSize(alignment, size), b.order)
               && ptr % Effective(alignment) == 0 && ptr % 8 == 0
               && (alignment != 0 && alignment != 3 ==> ptr % alignment == 0)
               && ptr == b.base + Max(8, Effective(alignment))
               && b.base % Max(Effective(alignment), PAGE) == 0
               && ptr + size <= b.base + b.size && ptr < b.base + b.size
               && b.size % PAGE == 0 && b.size > 0 && b.order == OrderFor(b.size / PAGE)
               && b.size / PAGE <= Pow2(b.order) < 2 * (b.size / PAGE)
               && AllocPagesSpec(h.pages, b.order).1 == b.base != 0
  {
    hide MemalignSpec, Place, RoundedSize, Align, Inv, Pow2, OrderFor, AllocPagesSpec, GoodAlignment, Succeeds;
    NoWrapIsRoomy(alignment, size);
    RoundedHolds(alignment, size);
    MemalignBlock(h, alignment, size);
  }

  lemma PageOnList(h: Heap, a: word)
    requires Inv(h)
    ensures a in h.pages.nodes ==> PageAt(a) == a
  {
  }

  /** An address in pages held under one pointer is outside every other live block. */
  lemma HeldApart(h: Heap, x: word, p: word, n: nat, ptr: word, a: word)
    requires Inv(h) && x in h.live && x != ptr
    requires IsPage(p) && p + n * PAGE <= WORD_MOD && Owns(h.owner, p, n, Held(ptr)) && InBlock(p, n, a)
    ensures !InBlock(h.live[x].base, Pow2(h.live[x].order), a)
    ensures a !in h.pages.nodes
  {
    hide Inv, IsList, Pow2, OrderFor;
    PageOf(p, n, a);
    assert h.owner[PageAt(a)] == Held(ptr);
    BlockPage(h, x, a);
    FreePage(h, PageAt(a));
    PageOnList(h, a);
  }

  /** Writing the two metadata words of a new block disturbs nothing else. */
  lemma MetadataWritten(h: Heap, p: word, n: nat, ptr: word, slack: word, size: word)
    requires Inv(h) && ptr !in h.live
    requires IsPage(p) && p + n * PAGE <= WORD_MOD && Owns(h.owner, p, n, Held(ptr))
    requires ptr % 8 == 0 && p + METADATA <= ptr < p + n * PAGE
    ensures Inv(h.(pages := h.pages.(mem := h.pages.mem[(ptr - 8) as nat := slack][(ptr - 4) as nat := size])))
  {
    hide IsList, Pow2, OrderFor;
    var m := h.pages.mem[(ptr - 8) as nat := slack][(ptr - 4) as nat := size];
    forall q: word | q in h.pages.nodes
      ensures Load(m, q) == Load(h.pages.mem, q)
    {
      assert !InBlock(p, n, q);
    }
    forall x: word | x in h.live
      ensures SameMetadata(h, x, m)
    {
      assert BlockOk(h, x, h.live[x]);
      HeldApart(h, x, p, n, ptr, ptr - 8);
      HeldApart(h, x, p, n, ptr, ptr - 4);
    }
    MemoryFrame(h, m);
  }

  /** The pointer memalign returns is not live before the call. */
  lemma NewPointer(h: Heap, p: word, n: nat, ptr: word)
    requires Inv(h) && IsPage(p) && p + n * PAGE <= WORD_MOD && Owns(h.owner, p, n, Free) && InBlock(p, n, ptr)
    ensures ptr !in h.live
  {
    hide IsList, Pow2, OrderFor, Inv;
    PointerPage(h, ptr);
    PageOf(p, n, ptr);
    assert h.owner[PageAt(ptr)] == Free;
  }

  lemma PointerPage(h: Heap, ptr: word)
    requires Inv(h)
    ensures ptr in h.live ==> PageAt(ptr) in h.owner && h.owner[PageAt(ptr)] == Held(ptr)
  {
    hide IsList, Pow2, OrderFor;
    if ptr in h.live {
      assert BlockOk(h, ptr, h.live[ptr]);
      BlockPage(h, ptr, ptr);
    }
  }

  /** The new state after a successful memalign, in terms of the block taken. */
  lemma MemalignState(h: Heap, alignment: word, size: word)
    requires Inv(h) && GoodAlignment(alignment) && Roomy(alignment, size) && Succeeds(h, alignment, size)
    ensures var (h', ptr) := MemalignSpec(h, alignment, size);
            ptr in h'.live && METADATA <= ptr && h'.live[ptr].base < ptr &&
            var b := h'.live[ptr];
            var pages := AllocPagesSpec(h.pages, b.order).0;
            var mem := pages.mem[(ptr - 8) as nat := ptr - b.base][(ptr - 4) as nat := b.size];
            h' == Heap(pages.(mem := mem), Give(h.owner, b.base, Pow2(b.order), Held(ptr)), h.live[ptr := b])
  {
    hide Place, RoundedSize, Align, Inv, AllocPagesSpec, OrderFor, PageCount, Give, Roomy, GoodAlignment, Pow2;
    hide Effective;
    MemalignBlock(h, alignment, size);
    var (h', ptr) := MemalignSpec(h, alignment, size);
    assert Wrap(ptr - 8) == ptr - 8 && Wrap(ptr - 4) == ptr - 4;
    assert Wrap(ptr - h'.live[ptr].base) == ptr - h'.live[ptr].base;
  }

  lemma MemalignKeepsInv(h: Heap, alignment: word, size: word)
    requires Inv(h) && GoodAlignment(alignment) && Roomy(alignment, size) && Succeeds(h, alignment, size)
    ensures MemalignSpec(h, alignment, size).1 !in h.live
    ensures Inv(MemalignSpec(h, alignment, size).0)
  {
    hide MemalignSpec, AllocPagesSpec, Inv, RoundedSize, Roomy, Pow2, OrderFor, GoodAlignment, Succeeds;
    var (h', ptr) := MemalignSpec(h, alignment, size);
    MemalignBlock(h, alignment, size);
    MemalignState(h, alignment, size);
    RoundedIsPages(alignment, size);
    var b := h'.live[ptr];
    var n := Pow2(b.order);
    TakenBlock(h, b.order);
    NewPointer(h, b.base, n, ptr);
    TakeKeepsInv(h, b.order, Held(ptr));
    var taken := Heap(AllocPagesSpec(h.pages, b.order).0, Give(h.owner, b.base, n, Held(ptr)), h.live);
    MetadataWritten(taken, b.base, n, ptr, ptr - b.base, b.size);
    BlockAdded(taken, ptr, b, h');
  }

  /** A served memalign keeps the heap whole exactly when the rounded size has room for the
      metadata and one alignment, which a request that does not wrap always has. */
  lemma ServedMemalign(h: Heap, alignment: word, size: word)
    requires Inv(h) && GoodAlignment(alignment) && Succeeds(h, alignment, size)
    ensures Inv(MemalignSpec(h, alignment, size).0) <==> Roomy(alignment, size)
    ensures NoWrap(alignment, size) ==> Roomy(alignment, size)
  {
    hide MemalignSpec, AllocPagesSpec, RoundedSize, NoWrap, Pow2, OrderFor, GoodAlignment, Succeeds, Place, Inv;
    if NoWrap(alignment, size) {
      NoWrapIsRoomy(alignment, size);
    }
    if Roomy(alignment, size) {
      MemalignKeepsInv(h, alignment, size);
    } else {
      MemalignTakes(h, alignment, size);
      var (h', ptr) := MemalignSpec(h, alignment, size);
      var b := h'.live[ptr];
      PlaceInNaturalBlock(b.base, b.order, b.size, alignment);
      PointerInside(h', ptr);
    }
  }

  lemma PointerInside(h: Heap, ptr: word)
    requires ptr in h.live
    ensures Inv(h) ==> h.live[ptr].base + METADATA <= ptr < h.live[ptr].base + h.live[ptr].size
  {
    hide IsList, Pow2, OrderFor, Owns;
  }

  lemma BlockAdded(h: Heap, ptr: word, b: Block, h': Heap)
    requires Inv(h.(pages := h.pages.(mem := h'.pages.mem))) && ptr !in h.live
    requires h' == h.(pages := h.pages.(mem := h'.pages.mem), live := h.live[ptr := b])
    requires BlockOk(h', ptr, b)
    ensures Inv(h')
  {
  }

  /** A failed memalign returns a pointer that is not NULL, the alignment itself or 8, and
      writes the two words in front of it, which belong to nobody or to whoever lives
      there. The heap survives exactly when that pointer is not a live one. */
  lemma FailedMemalign(h: Heap, alignment: word, size: word)
    requires Inv(h) && GoodAlignment(alignment) && !Succeeds(h, alignment, size)
    ensures var (h', ptr) := MemalignSpec(h, alignment, size);
            && h' == h.(pages := h.pages.(mem := h'.pages.mem))
            && ptr == Max(8, Effective(alignment)) && ptr != 0
            && (forall a: nat :: a != ptr - 8 && a != ptr - 4 ==> Load(h'.pages.mem, a) == Load(h.pages.mem, a))
            && (Inv(h') <==> ptr !in h.live)
  {
    hide Place, RoundedSize, Inv, Align, OrderFor, PageCount, AllocPagesSpec, Pow2, Effective, GoodAlignment;
    var k := AlignmentLog(alignment);
    PowerAndPage(k);
    FailedShape(h, alignment, size, Max(8, Effective(alignment)));
    hide MemalignSpec;
    var (h', ptr) := MemalignSpec(h, alignment, size);
    if ptr in h.live {
      OverwrittenSlack(h, h', ptr);
    } else {
      StrayWrites(h, ptr, h'.pages.mem);
    }
  }

  lemma FailedShape(h: Heap, alignment: word, size: word, ptr: word)
    requires Inv(h) && GoodAlignment(alignment) && !Succeeds(h, alignment, size)
    requires ptr == Max(8, Effective(alignment))
    ensures ptr % 8 == 0 && ptr % PAGE in {0, ptr}
    ensures MemalignSpec(h, alignment, size) ==
            var mem := h.pages.mem[(ptr - 8) as nat := ptr][(ptr - 4) as nat := RoundedSize(alignment, size)];
            (h.(pages := h.pages.(mem := mem)), ptr)
  {
    hide Place, RoundedSize, IsList, BlockOk, Align, OrderFor, PageCount, AllocPagesSpec, Effective, Wrap, Pow2;
    hide GoodAlignment;
    RoundedIsPages(alignment, size);
    FailedSearch(h.pages, RoundedSize(alignment, size));
    PlaceAtNull(alignment);
    WrapSmall(ptr - 8);
    WrapSmall(ptr - 4);
    WrapSmall(ptr);
  }

  /** The place of a result whose block is at NULL. */
  lemma PlaceAtNull(alignment: word)
    requires GoodAlignment(alignment)
    ensures var ptr := Max(8, Effective(alignment));
            && Place(0, alignment) == ptr && 8 <= ptr <= 0x8000_0000
            && ptr % 8 == 0 && ptr % PAGE in {0, ptr}
  {
    hide Place, Align, Pow2, GoodAlignment;
    var k := AlignmentLog(alignment);
    PowerAndPage(k);
    PlaceInBlock(0, alignment);
  }

  /** A power of two lies inside page 0 or on a page boundary. */
  lemma PowerAndPage(k: nat)
    requires k <= 31
    ensures 0 < Pow2(k) <= 0x8000_0000
    ensures Pow2(k) % PAGE == 0 || Pow2(k) % PAGE == Pow2(k)
  {
    var p := SmallPow2(k);
    Pow2At12();
    if k >= 12 {
      Pow2Add(k - 12, 12);
      DivModUnique(Pow2(k), PAGE, Pow2(k - 12), 0);
    } else {
      Pow2Monotone(k, 11);
      assert Pow2(12) == 2 * Pow2(11);
    }
  }

  lemma OverwrittenSlack(h: Heap, h': Heap, ptr: word)
    requires Inv(h) && ptr in h.live && h'.live == h.live && 8 <= ptr && Load(h'.pages.mem, ptr - 8) == ptr
    ensures !Inv(h')
  {
  }

  /** Writing the words in front of a multiple of 8 that is no live pointer, inside page 0 or
      just below a page boundary, disturbs neither links nor metadata. */
  lemma StrayWrites(h: Heap, ptr: word, m: Mem)
    requires Inv(h) && ptr !in h.live && 8 <= ptr && ptr % 8 == 0 && ptr % PAGE in {0, ptr}
    requires forall a: nat :: a != ptr - 8 && a != ptr - 4 ==> Load(m, a) == Load(h.pages.mem, a)
    ensures Inv(h.(pages := h.pages.(mem := m)))
  {
    hide IsList, Pow2, Owns, OrderFor;
    forall q: word | q in h.pages.nodes
      ensures Load(m, q) == Load(h.pages.mem, q)
    {
      assert IsPage(q);
    }
    forall x: word | x in h.live
      ensures SameMetadata(h, x, m)
    {
      assert BlockOk(h, x, h.live[x]);
    }
    MemoryFrame(h, m);
  }

  lemma FailedSearch(s: PageState, size: word)
    requires s.Valid() && size <= WORD_MOD - PAGE && PageMemalignSpec(s, size).1 == 0
    ensures PageMemalignSpec(s, size).0 == s
  {
    if size > 0 {
      PagesIn(size);
      var k := AllocPagesSplice(s, OrderFor(PageCount(size)));
    }
  }
}
