/** memalign over the early backend, the one in use until the page backend is enabled, and the
    heap it makes over whole runs. */
module EarlyHeap {
  import opened Words
  import opened PageList
  import HeapModel
  import opened Bump

  const MIN_ALIGN := 64

  // ----- sizes and placement -----

  /** The size memalign asks the early backend for. */
  function Rounded(alignment: word, size: word): word {
    Align(Wrap(HeapModel.Unrounded(alignment, size)), MIN_ALIGN)
  }

  function BlockAlign(alignment: word): word {
    Max(HeapModel.Effective(alignment), MIN_ALIGN)
  }

  function BackendRequest(alignment: word, size: word): Request {
    Request(Rounded(alignment, size), BlockAlign(alignment))
  }

  /** The size computation does not wrap. */
  predicate NoWrap(alignment: word, size: word) {
    HeapModel.Needed(alignment, size) + MIN_ALIGN <= WORD_MOD
  }

  lemma RoundedIs64s(alignment: word, size: word)
    ensures Rounded(alignment, size) % MIN_ALIGN == 0 && Rounded(alignment, size) <= WORD_MOD - MIN_ALIGN
    ensures var u := Wrap(HeapModel.Unrounded(alignment, size));
            if u + MIN_ALIGN <= WORD_MOD then u <= Rounded(alignment, size) < u + MIN_ALIGN
            else Rounded(alignment, size) == 0
  {
    hide Align;
    var u := Wrap(HeapModel.Unrounded(alignment, size));
    assert Pow2(6) == 64;
    AlignMultiple(u, 6);
    if u + MIN_ALIGN <= WORD_MOD {
      AlignUp(u, 6);
    } else {
      AlignWraps(u, 6);
    }
  }

  lemma RoundedHolds(alignment: word, size: word)
    requires NoWrap(alignment, size)
    ensures HeapModel.Needed(alignment, size) <= Rounded(alignment, size)
    ensures Rounded(alignment, size) < HeapModel.Needed(alignment, size) + MIN_ALIGN
  {
    hide Rounded, HeapModel.Needed, HeapModel.Unrounded;
    RoundedIs64s(alignment, size);
    NoWrapSize(alignment, size);
  }

  lemma NoWrapSize(alignment: word, size: word)
    requires NoWrap(alignment, size)
    ensures Wrap(HeapModel.Unrounded(alignment, size)) == HeapModel.Needed(alignment, size)
  {
  }

  /** The rounded size holds the request exactly when the size computation does not wrap, and then it
      is the least multiple of 64 for the bytes asked for, the room to align and the two words. */
  lemma RoundedHoldsExactly(alignment: word, size: word)
    ensures NoWrap(alignment, size) <==> HeapModel.Needed(alignment, size) <= Rounded(alignment, size)
    ensures var (n, r) := (size + (if alignment > 4 then alignment - 1 else 0) + 8, Rounded(alignment, size));
            && r % 64 == 0 && (n + 64 <= 0x1_0000_0000 <==> n <= r)
            && (n + 64 <= 0x1_0000_0000 ==> r < n + 64)
  {
    hide Rounded;
    RoundedIs64s(alignment, size);
    if NoWrap(alignment, size) {
      RoundedHolds(alignment, size);
    }
  }

  /** malloc of the largest size gets 64 bytes. */
  lemma LargestMalloc()
    ensures Rounded(4, 0xFFFF_FFFF) == MIN_ALIGN
  {
    hide Align;
    assert Wrap(HeapModel.Unrounded(4, 0xFFFF_FFFF)) == 7;
    RoundedIs64s(4, 0xFFFF_FFFF);
  }

  /** When it wraps, the rounded size does not even reach the end of the request. */
  lemma RoundedShort(alignment: word, size: word)
    requires HeapModel.GoodAlignment(alignment) && !NoWrap(alignment, size)
    ensures Rounded(alignment, size) < Max(8, HeapModel.Effective(alignment)) + size
  {
    hide Rounded;
    RoundedIs64s(alignment, size);
    var k := HeapModel.AlignmentLog(alignment);
    var p := SmallPow2(k);
    WrappedSize(alignment, size);
  }

  lemma WrappedSize(alignment: word, size: word)
    requires alignment <= 0x8000_0000 && !NoWrap(alignment, size)
    ensures var u := Wrap(HeapModel.Unrounded(alignment, size));
            u + MIN_ALIGN > WORD_MOD || u + MIN_ALIGN <= Max(8, HeapModel.Effective(alignment)) + size
  {
    if alignment > 4 {
      WrapSmall(alignment - 1);
      var n: nat := size + (alignment - 1);
      if n < WORD_MOD {
        WrapSmall(n);
        WrapEnd(n + 8);
      } else {
        WrapOnce(n);
        WrapSmall(n - WORD_MOD + 8);
      }
    } else {
      WrapEnd(size + 8);
    }
  }

  lemma WrapEnd(x: nat)
    requires WORD_MOD - MIN_ALIGN < x < WORD_MOD + 8
    ensures Wrap(x) + MIN_ALIGN > WORD_MOD || Wrap(x) < 8
  {
  }

  /** The rounded size has room behind the metadata and one alignment. */
  predicate Roomy(alignment: word, size: word) {
    Max(8, HeapModel.Effective(alignment)) < Rounded(alignment, size)
  }

  lemma NoWrapIsRoomy(alignment: word, size: word)
    requires NoWrap(alignment, size)
    ensures Roomy(alignment, size)
  {
    hide Rounded;
    RoundedHolds(alignment, size);
    RoundedIs64s(alignment, size);
  }

  /** The source's sum of size and padding does not wrap. */
  predicate SumFits(s: BumpState, alignment: word, size: word) {
    Rounded(alignment, size) + Padding(s.base, BlockAlign(alignment)) < WORD_MOD
  }

  /** A granted block is aligned as asked, starts at or above the old pointer and ends at the new
      one; the result is aligned and its metadata lie inside the block; the requested bytes
      lie inside the block exactly when the size computation did not wrap. */
  lemma EarlyPlacement(s: BumpState, alignment: word, size: word)
    requires s.base <= s.top && HeapModel.GoodAlignment(alignment)
    requires Roomy(alignment, size) && SumFits(s, alignment, size)
    requires Granted(s, BackendRequest(alignment, size))
    ensures var (s', p) := AllocSpec(s, BackendRequest(alignment, size));
            var ptr := HeapModel.Place(p, alignment);
            && s.base <= p != INVALID && p % BlockAlign(alignment) == 0
            && ptr % HeapModel.Effective(alignment) == 0 && ptr % 8 == 0
            && p + 8 <= ptr == p + Max(8, HeapModel.Effective(alignment)) < p + Rounded(alignment, size)
            && (ptr + size <= p + Rounded(alignment, size) <==> NoWrap(alignment, size))
            && p + Rounded(alignment, size) == s'.base <= s'.top == s.top
  {
    hide Align, Padding, Pow2, IsPow2, HeapModel.Place, AllocSpec, Rounded, Granted, HeapModel.GoodAlignment;
    var k := HeapModel.AlignmentLog(alignment);
    LogOfBlock(alignment, k);
    SumGranted(s, BackendRequest(alignment, size));
    var p := AllocSpec(s, BackendRequest(alignment, size)).1;
    RoomAbove(p, HeapModel.Effective(alignment), BlockAlign(alignment), k);
    HeapModel.PlaceInBlock(p, alignment);
    if NoWrap(alignment, size) {
      RoundedHolds(alignment, size);
    } else {
      RoundedShort(alignment, size);
    }
  }

  /** A granted request whose sum does not wrap gets an aligned region below top. */
  lemma SumGranted(s: BumpState, r: Request)
    requires s.base <= s.top && IsPow2(r.align) && 0 < r.size && r.size + Padding(s.base, r.align) < WORD_MOD
    requires Granted(s, r)
    ensures var (s', p) := AllocSpec(s, r);
            && s.base <= p && p % r.align == 0 && p + r.size == s'.base <= s'.top == s.top
  {
    hide Align, Padding, Pow2, IsPow2, AllocSpec, Granted, Wrap;
    var k := Log(r.align);
    PaddingIsLeast(s.base, r.align, k);
    GrantedExactly(s, r);
    AllocUnfolds(s, r);
    WrapSmall(s.base + r.size + Padding(s.base, r.align));
  }

  lemma LogOfBlock(alignment: word, k: nat)
    requires 2 <= k <= 31 && HeapModel.Effective(alignment) == Pow2(k)
    ensures IsPow2(BlockAlign(alignment)) && BlockAlign(alignment) == Pow2(if k < 6 then 6 else k)
  {
    assert Pow2(6) == 64;
    if k < 6 {
      Pow2Monotone(k, 6);
    } else {
      Pow2Monotone(6, k);
    }
  }

  /** Between a multiple of the block alignment and 2^32 there is room for the alignment twice. */
  lemma RoomAbove(p: word, a: word, b: word, k: nat)
    requires 2 <= k <= 31 && a == Pow2(k) && b == Pow2(if k < 6 then 6 else k)
    requires p % b == 0 && p + a < 0x1_0000_0000
    ensures p % a == 0 && p % 8 == 0 && p + 2 * Max(8, a) <= 0x1_0000_0000
  {
    var j := if k < 6 then 6 else k;
    ModPow2Weaken(p, k, j);
    assert Pow2(3) == 8;
    ModPow2Weaken(p, 3, j);
    if k < 6 {
      SmallRoom(p, a, k);
    } else {
      LargeRoom(p, a, k);
    }
  }

  lemma SmallRoom(p: word, a: word, k: nat)
    requires k < 6 && a == Pow2(k) && p % Pow2(6) == 0
    ensures p + 2 * Max(8, a) <= 0x1_0000_0000
  {
  }

  lemma LargeRoom(p: word, a: word, k: nat)
    requires 6 <= k <= 31 && a == Pow2(k) && p % a == 0 && p + a < 0x1_0000_0000
    ensures p + 2 * Max(8, a) <= 0x1_0000_0000
  {
    assert Pow2(6) == 64;
    Pow2Monotone(6, k);
    Pow2At32();
    Pow2Add(32 - k, k);
    LargeRoomAt(p, a, Pow2(32 - k));
  }

  lemma LargeRoomAt(p: word, a: word, h: nat)
    requires 8 <= a && h * a == 0x1_0000_0000 && p % a == 0 && p + a < 0x1_0000_0000
    ensures p + 2 * Max(8, a) <= 0x1_0000_0000
  {
    DivMod(p, a);
    Beyond(p / a, a, h);
  }

  lemma Beyond(q: nat, a: nat, h: nat)
    requires q * a + a < h * a && a > 0
    ensures q * a + 2 * a <= h * a
  {
    if q + 2 > h {
      MulLe(h, q + 1, a);
    } else {
      MulLe(q + 2, h, a);
    }
  }

  // ----- the early heap over runs -----

  /** A live block: the region granted, and the request it was granted for. */
  datatype Block = Block(base: word, size: word, alignment: word, request: word)

  datatype Heap = Heap(s: BumpState, mem: Mem, live: map<word, Block>)

  /** memalign over the early backend. Its NULL is not looked at, so that a failed call writes
      the two words in front of 8 or of the alignment. */
  function MemalignSpec(h: Heap, alignment: word, size: word): (Heap, word) {
    var (s', addr) := AllocSpec(h.s, BackendRequest(alignment, size));
    var p := if addr == INVALID then 0 else addr;
    var ptr := HeapModel.Place(p, alignment);
    var mem := h.mem[Wrap(ptr - 8) as nat := Wrap(ptr - p)][Wrap(ptr - 4) as nat := Rounded(alignment, size)];
    if Served(h, alignment, size)
    then (Heap(s', mem, h.live[ptr := Block(p, Rounded(alignment, size), alignment, size)]), ptr)
    else (Heap(s', mem, h.live), ptr)
  }

  predicate Served(h: Heap, alignment: word, size: word) {
    Granted(h.s, BackendRequest(alignment, size))
  }

  /** What was asked for is met: the alignment, unless it is 0 or 3, and the bytes of the request when
      they, the room to align, the metadata and the rounding to 64 fit below 2^32. */
  predicate AsAsked(ptr: word, b: Block) {
    && (b.alignment != 0 && b.alignment != 3 ==> ptr % b.alignment == 0)
    && (b.request + (if b.alignment > 4 then b.alignment - 1 else 0) + 8 + 64 <= 0x1_0000_0000 ==>
          ptr + b.request <= b.base + b.size)
  }

  /** A live block lies below the pointer, meets its request, and still has its metadata. */
  ghost predicate BlockOk(h: Heap, init: word, ptr: word, b: Block) {
    && init <= b.base && b.base + 8 <= ptr < b.base + b.size <= h.s.base && ptr % 8 == 0
    && Load(h.mem, ptr - 8) == ptr - b.base
    && Load(h.mem, ptr - 4) == b.size
    && AsAsked(ptr, b)
  }

  predicate Apart(b: Block, c: Block) {
    b.base + b.size <= c.base || c.base + c.size <= b.base
  }

  ghost predicate Inv(h: Heap, init: word) {
    && init <= h.s.base <= h.s.top
    && (forall ptr: word :: ptr in h.live ==> BlockOk(h, init, ptr, h.live[ptr]))
    && forall x: word, y: word :: x in h.live && y in h.live && x != y ==> Apart(h.live[x], h.live[y])
  }

  /** free does nothing over a backend without one. Write stands for any writes by clients to
      what is theirs. */
  datatype Op =
    | Memalign(alignment: word, size: word)
    | Free(ptr: word)
    | Write(mem: Mem)
    | TakeRest

  /** Behind the pointer of a live block up to the end of its size. */
  ghost predicate UserWord(h: Heap, a: nat) {
    exists ptr: word :: ptr in h.live && ptr <= a < h.live[ptr].base + h.live[ptr].size
  }

  ghost predicate Legal(h: Heap, op: Op) {
    match op
    case Memalign(alignment, size) =>
      && HeapModel.GoodAlignment(alignment)
      && if Served(h, alignment, size) then Roomy(alignment, size) && SumFits(h.s, alignment, size)
         else Max(8, HeapModel.Effective(alignment)) !in h.live
    case Free(_) => true
    case Write(mem) => forall a: nat :: Load(mem, a) == Load(h.mem, a) || UserWord(h, a)
    case TakeRest => true
  }

  function Apply(h: Heap, op: Op): Heap {
    match op
    case Memalign(alignment, size) => MemalignSpec(h, alignment, size).0
    case Free(_) => h
    case Write(mem) => h.(mem := mem)
    case TakeRest => h.(s := UnusedSpec(h.s))
  }

  /** A served request changes no word below the old pointer. */
  lemma ServedBlock(h: Heap, init: word, alignment: word, size: word)
    requires Inv(h, init) && Legal(h, Memalign(alignment, size)) && Served(h, alignment, size)
    ensures var (h', ptr) := MemalignSpec(h, alignment, size);
            && ptr !in h.live && h'.live == h.live[ptr := h'.live[ptr]]
            && h.s.base <= h'.live[ptr].base && h'.s.base <= h'.s.top && h.s.base <= h'.s.base
            && BlockOk(h', init, ptr, h'.live[ptr])
            && forall a: nat :: a < h.s.base ==> Load(h'.mem, a) == Load(h.mem, a)
  {
    hide BlockOk, MemalignSpec, AllocSpec, Rounded, Inv, Legal, Served, BackendRequest;
    EarlyMemalign(h, init, alignment, size);
    LiveBelow(h, init);
    var (h', ptr) := MemalignSpec(h, alignment, size);
    BlockServed(h', init, ptr, h'.live[ptr]);
  }

  lemma BlockServed(h: Heap, init: word, ptr: word, b: Block)
    requires init <= b.base && b.base + 8 <= ptr < b.base + b.size <= h.s.base && ptr % 8 == 0
    requires Load(h.mem, ptr - 8) == ptr - b.base && Load(h.mem, ptr - 4) == b.size && AsAsked(ptr, b)
    ensures BlockOk(h, init, ptr, b)
  {
  }

  /** What a served early memalign returns, and nothing else changes: a new pointer, a multiple of the
      alignment asked for, in the region that the backend grants for it, behind the two words
      that describe the region; the bytes asked for lie inside that region if and only if they,
      the room to align, the metadata and the rounding to 64 fit below 2^32. */
  lemma EarlyMemalign(h: Heap, init: word, alignment: word, size: word)
    requires Inv(h, init) && Legal(h, Memalign(alignment, size)) && Served(h, alignment, size)
    ensures var ((h', ptr), (s', p)) :=
              (MemalignSpec(h, alignment, size), AllocSpec(h.s, BackendRequest(alignment, size)));
            && ptr !in h.live && 8 <= ptr
            && h' == Heap(s', h'.mem, h.live[ptr := Block(p, Rounded(alignment, size), alignment, size)])
            && (alignment != 0 && alignment != 3 ==> ptr % alignment == 0) && ptr % 8 == 0 && p % 64 == 0
            && ptr == p + (if alignment <= 8 then 8 else alignment) < p + Rounded(alignment, size)
            && h.s.base <= p && p + Rounded(alignment, size) == s'.base <= s'.top == h.s.top
            && (ptr + size <= p + Rounded(alignment, size) <==>
                size + (if alignment > 4 then alignment - 1 else 0) + 8 + 64 <= 0x1_0000_0000)
            && Load(h'.mem, ptr - 8) == ptr - p && Load(h'.mem, ptr - 4) == Rounded(alignment, size)
            && (forall a: nat :: a != ptr - 8 && a != ptr - 4 ==> Load(h'.mem, a) == Load(h.mem, a))
  {
    hide Rounded, AllocSpec, Granted, Padding, Align, HeapModel.Place, HeapModel.GoodAlignment, Wrap;
    EarlyPlacement(h.s, alignment, size);
    var (h', ptr) := MemalignSpec(h, alignment, size);
    var p := AllocSpec(h.s, BackendRequest(alignment, size)).1;
    WrapSmall(ptr - 8);
    WrapSmall(ptr - 4);
    WrapSmall(ptr - p);
    LiveBelow(h, init);
    HeapModel.AlignedAsAsked(alignment, ptr);
    BlockAligned(alignment, p);
  }

  lemma BlockAligned(alignment: word, p: word)
    requires HeapModel.GoodAlignment(alignment) && p % BlockAlign(alignment) == 0
    ensures p % 64 == 0
  {
    var k := HeapModel.AlignmentLog(alignment);
    LogOfBlock(alignment, k);
    assert Pow2(6) == 64;
    ModPow2Weaken(p, 6, if k < 6 then 6 else k);
  }

  lemma LiveBelow(h: Heap, init: word)
    requires Inv(h, init)
    ensures init <= h.s.base && forall x: word :: x in h.live ==> x < h.s.base
  {
    forall x: word | x in h.live
      ensures x < h.s.base
    {
      assert BlockOk(h, init, x, h.live[x]);
    }
  }

  lemma FailedCall(h: Heap, alignment: word, size: word)
    requires HeapModel.GoodAlignment(alignment) && !Served(h, alignment, size)
    ensures var (h', ptr) := MemalignSpec(h, alignment, size);
            && ptr == Max(8, HeapModel.Effective(alignment)) && ptr % 8 == 0
            && h'.s == h.s && h'.live == h.live
            && forall a: nat :: a != ptr - 8 && a != ptr - 4 ==> Load(h'.mem, a) == Load(h.mem, a)
  {
    hide Rounded, Padding, Align, HeapModel.Place, HeapModel.GoodAlignment, Wrap, HeapModel.Effective;
    HeapModel.PlaceAtNull(alignment);
    var ptr := Max(8, HeapModel.Effective(alignment));
    WrapSmall(ptr - 8);
    WrapSmall(ptr - 4);
  }

  lemma ServedKeepsInv(h: Heap, init: word, alignment: word, size: word)
    requires Inv(h, init) && Legal(h, Memalign(alignment, size)) && Served(h, alignment, size)
    ensures Inv(MemalignSpec(h, alignment, size).0, init)
  {
    hide MemalignSpec, Served, Legal, AsAsked;
    ServedBlock(h, init, alignment, size);
  }

  lemma FailedKeepsInv(h: Heap, init: word, alignment: word, size: word)
    requires Inv(h, init) && Legal(h, Memalign(alignment, size)) && !Served(h, alignment, size)
    ensures Inv(MemalignSpec(h, alignment, size).0, init)
  {
    hide MemalignSpec, Served, HeapModel.GoodAlignment, HeapModel.Effective, Roomy, SumFits, AsAsked, BlockOk;
    FailedCall(h, alignment, size);
    var (h', ptr) := MemalignSpec(h, alignment, size);
    forall x: word | x in h.live
      ensures BlockOk(h', init, x, h.live[x])
    {
      OffTheStray(h, init, x, h.live[x], h', ptr);
    }
  }

  lemma OffTheStray(h: Heap, init: word, x: word, b: Block, h': Heap, ptr: word)
    requires BlockOk(h, init, x, b) && h'.s == h.s && x != ptr && ptr % 8 == 0
    requires forall a: nat :: a != ptr - 8 && a != ptr - 4 ==> Load(h'.mem, a) == Load(h.mem, a)
    ensures BlockOk(h', init, x, b)
  {
  }

  lemma StepKeepsInv(h: Heap, init: word, op: Op)
    requires Inv(h, init) && Legal(h, op)
    ensures Inv(Apply(h, op), init)
    ensures op.Write? ==> Apply(h, op) == Heap(h.s, op.mem, h.live)
    ensures op.Free? ==> Apply(h, op) == h
    ensures op.TakeRest? ==> Apply(h, op).s.base == h.s.top && Apply(h, op) == Heap(Apply(h, op).s, h.mem, h.live)
  {
    hide MemalignSpec, Served, Roomy, SumFits, HeapModel.GoodAlignment, HeapModel.Effective, BlockOk;
    match op
    case Memalign(alignment, size) =>
      if Served(h, alignment, size) {
        ServedKeepsInv(h, init, alignment, size);
      } else {
        FailedKeepsInv(h, init, alignment, size);
      }
    case Free(_) =>
    case Write(mem) => WriteKeepsInv(h, init, mem);
    case TakeRest => RestKeepsInv(h, init);
  }

  lemma RestKeepsInv(h: Heap, init: word)
    requires Inv(h, init)
    ensures Inv(Apply(h, TakeRest), init)
  {
    hide AsAsked;
  }

  lemma WriteKeepsInv(h: Heap, init: word, mem: Mem)
    requires Inv(h, init) && Legal(h, Write(mem))
    ensures Inv(h.(mem := mem), init)
  {
    forall x: word | x in h.live
      ensures BlockOk(h.(mem := mem), init, x, h.live[x])
    {
      assert BlockOk(h, init, x, h.live[x]);
      MetadataNotUser(h, init, x, x - 8);
      MetadataNotUser(h, init, x, x - 4);
    }
  }

  lemma MetadataNotUser(h: Heap, init: word, x: word, a: nat)
    requires Inv(h, init) && x in h.live && (a == x - 8 || a == x - 4)
    ensures !UserWord(h, a)
  {
    forall y: word | y in h.live
      ensures !(y <= a < h.live[y].base + h.live[y].size)
    {
      assert BlockOk(h, init, y, h.live[y]) && BlockOk(h, init, x, h.live[x]);
    }
  }

  ghost predicate Run(h: Heap, ops: seq<Op>, h': Heap)
    decreases |ops|
  {
    if ops == [] then h' == h else Legal(h, ops[0]) && Run(Apply(h, ops[0]), ops[1..], h')
  }

  /** After any run of early requests, served or not, with any writes by clients to their own
      blocks: live blocks have no byte in common and lie between the start of the region and
      the pointer, the words in front of every live pointer decode to its block, and every live
      pointer has the alignment that was asked for, with room for the bytes asked for. */
  lemma {:induction false} EarlyRunSafety(h: Heap, init: word, ops: seq<Op>, h': Heap)
    requires Inv(h, init) && Run(h, ops, h')
    ensures Inv(h', init)
    ensures forall x: word, y: word :: x in h'.live && y in h'.live && x != y ==> Apart(h'.live[x], h'.live[y])
    ensures forall x: word :: x in h'.live ==>
              && init <= h'.live[x].base && h'.live[x].base + h'.live[x].size <= h'.s.base
              && HeapModel.BlockBegin(h'.mem, x) == h'.live[x].base
              && HeapModel.BlockSize(h'.mem, x) == h'.live[x].size
              && AsAsked(x, h'.live[x])
    decreases |ops|
  {
    hide Legal, Apply, BlockOk, AsAsked, HeapModel.BlockBegin, HeapModel.BlockSize;
    if ops == [] {
      forall x: word | x in h'.live
        ensures init <= h'.live[x].base && h'.live[x].base + h'.live[x].size <= h'.s.base
        ensures HeapModel.BlockBegin(h'.mem, x) == h'.live[x].base
        ensures HeapModel.BlockSize(h'.mem, x) == h'.live[x].size && AsAsked(x, h'.live[x])
      {
        LiveDecodes(h', init, x);
      }
    } else {
      StepKeepsInv(h, init, ops[0]);
      EarlyRunSafety(Apply(h, ops[0]), init, ops[1..], h');
    }
  }

  lemma LiveDecodes(h: Heap, init: word, x: word)
    requires x in h.live && BlockOk(h, init, x, h.live[x])
    ensures init <= h.live[x].base && h.live[x].base + h.live[x].size <= h.s.base
    ensures HeapModel.BlockBegin(h.mem, x) == h.live[x].base
    ensures HeapModel.BlockSize(h.mem, x) == h.live[x].size && AsAsked(x, h.live[x])
  {
  }
}
