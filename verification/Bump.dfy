/** The early allocator: a bump pointer between base and top and a log of the regions
    handed out. */
module Bump {
  import opened Words

  const LOG_SIZE := 256
  const INVALID: word := 0xFFFF_FFFF

  datatype Region = Region(base: word, size: word)

  datatype BumpState = BumpState(base: word, top: word, log: seq<Region>)

  datatype Request = Request(size: word, align: word)

  /** Bytes skipped in front of the region, with the source's wrap-around. */
  function Padding(base: word, align: word): word {
    Wrap(Align(base, align) - base)
  }

  /** phys_alloc_aligned_safe. Clamping top to 2^32 changes nothing for a 32-bit top. */
  function AllocSpec(s: BumpState, r: Request): (BumpState, word) {
    var need := Wrap(r.size + Padding(s.base, r.align));
    if Wrap(s.top - s.base) < need then (s, INVALID)
    else
      var addr := Align(s.base, r.align);
      var log := if |s.log| < LOG_SIZE then s.log + [Region(addr, r.size)] else s.log;
      (BumpState(Wrap(s.base + need), s.top, log), addr)
  }

  predicate Granted(s: BumpState, r: Request) {
    Wrap(s.top - s.base) >= Wrap(r.size + Padding(s.base, r.align))
  }

  /** phys_alloc_get_unused: log everything that is left and close the region. */
  function UnusedSpec(s: BumpState): BumpState {
    if s.base == s.top then s
    else BumpState(s.top, s.top, s.log + [Region(s.base, Wrap(s.top - s.base))])
  }

  /** The padding is the distance to the next multiple, even when that is 2^32. */
  lemma PaddingIsLeast(base: word, align: word, k: nat)
    requires k <= 31 && align == Pow2(k)
    ensures Padding(base, align) < align && (base + Padding(base, align)) % align == 0
    ensures base + Padding(base, align) < WORD_MOD ==> Align(base, align) == base + Padding(base, align)
  {
    hide Align;
    if base + align <= WORD_MOD {
      AlignUp(base, k);
      Subtract(base, Align(base, align));
    } else {
      PaddingToTop(base, align, k);
    }
  }

  lemma Subtract(x: word, y: word)
    ensures x <= y ==> Wrap(y - x) == y - x
    ensures y < x ==> Wrap(y - x) == WORD_MOD + y - x
  {
  }

  /** Close to 2^32 the rounded-up address wraps to 0. */
  lemma PaddingToTop(base: word, align: word, k: nat)
    requires k <= 31 && align == Pow2(k) && base + align > WORD_MOD
    ensures Align(base, align) == 0
    ensures Padding(base, align) == WORD_MOD - base && WORD_MOD % align == 0
  {
    hide Align, Pow2;
    AlignWraps(base, k);
  }

  /** A request is granted exactly when region and padding fit, or when their sum wraps
      around to something that does. */
  lemma GrantedExactly(s: BumpState, r: Request)
    requires s.base <= s.top
    ensures var need := r.size + Padding(s.base, r.align);
            Granted(s, r) <==> need <= s.top - s.base || (WORD_MOD <= need && need - WORD_MOD <= s.top - s.base)
  {
    hide Padding;
    WrappedNeed(r.size + Padding(s.base, r.align));
  }

  lemma WrappedNeed(need: nat)
    requires need < 2 * WORD_MOD
    ensures Wrap(need) == if need < WORD_MOD then need else need - WORD_MOD
  {
  }

  /** A request of almost 4 GB on an exhausted region is granted, at address 0. */
  lemma GrantByWrapping()
    ensures var s := BumpState(0xFFFF_FFF0, 0xFFFF_FFF0, []);
            Granted(s, Request(0xFFFF_FFF0, 64)) && AllocSpec(s, Request(0xFFFF_FFF0, 64)).1 == 0
  {
    hide Align;
    assert Pow2(6) == 64;
    PaddingToTop(0xFFFF_FFF0, 64, 6);
  }

  /** What a caller checks so that nothing wraps. */
  ghost predicate Modest(r: Request) {
    IsPow2(r.align) && r.size + r.align <= WORD_MOD
  }

  /** Without wrap-around: granted exactly when the aligned region fits below top, and then
      the region is aligned and the pointer moves to its end. Otherwise nothing changes. */
  lemma AllocMeaning(s: BumpState, r: Request)
    requires s.base <= s.top && Modest(r)
    ensures var (s', addr) := AllocSpec(s, r);
            var pad := Padding(s.base, r.align);
            && pad < r.align && (s.base + pad) % r.align == 0
            && (Granted(s, r) <==> s.base + pad + r.size <= s.top)
            && (Granted(s, r) ==> addr == s.base + pad && s'.base == addr + r.size && s'.top == s.top)
            && (!Granted(s, r) ==> s' == s && addr == INVALID)
  {
    hide Padding, Align, Granted, Pow2, AllocSpec, IsPow2;
    var k := Log(r.align);
    PaddingIsLeast(s.base, r.align, k);
    GrantedExactly(s, r);
    AllocUnfolds(s, r);
  }

  lemma AllocUnfolds(s: BumpState, r: Request)
    requires s.base <= s.top && r.size + Padding(s.base, r.align) < WORD_MOD
    ensures var (s', addr) := AllocSpec(s, r);
            if Granted(s, r)
            then addr == Align(s.base, r.align) && s'.top == s.top
                 && s'.base == Wrap(s.base + r.size + Padding(s.base, r.align))
            else s' == s && addr == INVALID
  {
    hide Padding, Align;
  }

  lemma Log(align: word) returns (k: nat)
    requires IsPow2(align)
    ensures k <= 31 && align == Pow2(k)
  {
    k :| align == Pow2(k);
    Pow2At32();
    Pow2StrictlyMonotone(k, 32);
  }

  /** The same with positions that may be 2^32, where base and top read 0: then the meaning holds
      for requests that are not empty. */
  lemma AllocAt(s: BumpState, r: Request, at: nat, lim: nat)
    requires at <= lim <= WORD_MOD && s.base == Wrap(at) && s.top == Wrap(lim)
    requires Modest(r) && (lim == WORD_MOD ==> 0 < at && 0 < r.size)
    ensures var (s', addr) := AllocSpec(s, r);
            var pad := Padding(s.base, r.align);
            && pad < r.align && (at + pad) % r.align == 0
            && (Granted(s, r) <==> at + pad + r.size <= lim)
            && (Granted(s, r) ==> addr == at + pad && s'.base == Wrap(addr + r.size) && s'.top == s.top)
            && (!Granted(s, r) ==> s' == s && addr == INVALID)
  {
    hide Padding, Align, Granted, Pow2, AllocSpec, IsPow2, Wrap;
    var k := Log(r.align);
    PaddingIsLeast(s.base, r.align, k);
    if lim < WORD_MOD {
      WrapSmall(at);
      WrapSmall(lim);
      AllocMeaning(s, r);
      AllocFits(s, r);
    } else if at == WORD_MOD {
      NothingAtTop(s, r, k);
    } else {
      WrapSmall(at);
      OpenTop(s, r);
    }
  }

  lemma AllocFits(s: BumpState, r: Request)
    requires s.base <= s.top && Modest(r)
    ensures Granted(s, r) ==> AllocSpec(s, r).1 + r.size < WORD_MOD
    ensures Granted(s, r) ==> AllocSpec(s, r).0.base == Wrap(AllocSpec(s, r).1 + r.size)
  {
    hide Padding, Align, Granted, AllocSpec, IsPow2, Wrap;
    AllocMeaning(s, r);
    if Granted(s, r) {
      WrapSmall(AllocSpec(s, r).1 + r.size);
    }
  }

  /** With base and top both wrapped to 0 nothing but an empty request is granted. */
  lemma NothingAtTop(s: BumpState, r: Request, k: nat)
    requires s.base == Wrap(WORD_MOD) && s.top == Wrap(WORD_MOD) && 0 < r.size
    requires k <= 31 && r.align == Pow2(k)
    ensures s.base == 0 && Padding(s.base, r.align) == 0 && WORD_MOD % r.align == 0
    ensures !Granted(s, r) && AllocSpec(s, r) == (s, INVALID)
  {
    hide Align, Pow2;
    var p := SmallPow2(k);
    DivMod(0, p);
    AlignFixed(0, k);
    Pow2At32();
    DivMod(WORD_MOD, WORD_MOD);
    ModPow2Weaken(WORD_MOD, k, 32);
  }

  /** With top wrapped to 0 the source's differences still count the bytes up to 2^32. */
  lemma OpenTop(s: BumpState, r: Request)
    requires 0 < s.base && s.top == Wrap(WORD_MOD) && Modest(r) && 0 < r.size
    requires Padding(s.base, r.align) < r.align
    requires s.base + Padding(s.base, r.align) < WORD_MOD ==>
               Align(s.base, r.align) == s.base + Padding(s.base, r.align)
    ensures var (s', addr) := AllocSpec(s, r);
            var pad := Padding(s.base, r.align);
            && (Granted(s, r) <==> s.base + pad + r.size <= WORD_MOD)
            && (Granted(s, r) ==> addr == s.base + pad && s'.base == Wrap(addr + r.size) && s'.top == s.top)
            && (!Granted(s, r) ==> s' == s && addr == INVALID)
  {
    hide Padding, Align, IsPow2;
    var need: nat := r.size + Padding(s.base, r.align);
    WrapSmall(need);
    assert Wrap(s.top - s.base) == WORD_MOD - s.base;
  }

  /** An empty request on a region that ends at 2^32 may be granted at address 0. */
  lemma EmptyRequestAtTop()
    ensures var s := BumpState(0xFFFF_FFF0, 0, []);
            Granted(s, Request(0, 64)) && AllocSpec(s, Request(0, 64)).1 == 0
  {
    hide Align;
    assert Pow2(6) == 64;
    PaddingToTop(0xFFFF_FFF0, 64, 6);
  }

  // ----- runs -----

  /** The allocator with everything it ever granted, whether or not the log had room. Its region
      ends at lim, which may be 2^32, and the pointer stands at position at. */
  datatype Account =
    Account(s: BumpState, init: word, at: nat, lim: nat, grants: seq<Region>, aligns: seq<word>, padding: nat)

  function Total(rs: seq<Region>): nat {
    if rs == [] then 0 else Total(rs[..|rs| - 1]) + rs[|rs| - 1].size
  }

  ghost predicate Sorted(rs: seq<Region>, lo: nat, hi: nat) {
    && (forall i :: 0 <= i < |rs| ==> lo <= rs[i].base && rs[i].base + rs[i].size <= hi)
    && (forall i, j :: 0 <= i < j < |rs| ==> rs[i].base + rs[i].size <= rs[j].base)
  }

  /** Base and top are the pointer's position and the region's end, as words. */
  ghost predicate InPlace(a: Account) {
    && a.init <= a.at <= a.lim <= WORD_MOD && (a.lim == WORD_MOD ==> 0 < a.init)
    && a.s.base == Wrap(a.at) && a.s.top == Wrap(a.lim)
  }

  /** Grants lie in ascending order between the initial base and the pointer, each aligned as
      asked; grants and padding account for every byte the pointer has moved; the log is
      the first 256 grants. */
  ghost predicate Inv(a: Account) {
    && InPlace(a)
    && Sorted(a.grants, a.init, a.at)
    && |a.aligns| == |a.grants|
    && (forall i :: 0 <= i < |a.grants| ==> 0 < a.aligns[i] && a.grants[i].base % a.aligns[i] == 0)
    && Total(a.grants) + a.padding == a.at - a.init
    && a.s.log == if |a.grants| <= LOG_SIZE then a.grants else a.grants[..LOG_SIZE]
  }

  datatype BumpOp = Alloc(r: Request) | GetUnused

  /** Empty requests do no harm unless the region ends at 2^32, where they may be granted at
      address 0. get_unused writes its log entry without looking whether there is room. */
  ghost predicate Legal(a: Account, op: BumpOp) {
    match op
    case Alloc(r) => Modest(r) && (a.lim == WORD_MOD ==> 0 < r.size)
    case GetUnused => a.s.base == a.s.top || |a.s.log| < LOG_SIZE
  }

  ghost function Apply(a: Account, op: BumpOp): Account {
    match op
    case Alloc(r) =>
      var (s', addr) := AllocSpec(a.s, r);
      var pad := Padding(a.s.base, r.align);
      if Granted(a.s, r)
      then Account(s', a.init, a.at + pad + r.size, a.lim, a.grants + [Region(addr, r.size)], a.aligns + [r.align],
                   a.padding + pad)
      else a
    case GetUnused =>
      if a.s.base == a.s.top then a.(s := UnusedSpec(a.s))
      else Account(UnusedSpec(a.s), a.init, a.lim, a.lim, a.grants + [Region(a.s.base, Wrap(a.s.top - a.s.base))],
                   a.aligns + [1], a.padding)
  }

  lemma Extended(rs: seq<Region>, r: Region, lo: nat, mid: nat, hi: nat)
    requires Sorted(rs, lo, mid) && mid <= r.base && lo <= r.base && r.base + r.size <= hi && mid <= hi
    ensures Sorted(rs + [r], lo, hi) && Total(rs + [r]) == Total(rs) + r.size
  {
    assert (rs + [r])[..|rs|] == rs;
  }

  /** The rest of the region, as the source computes it. */
  lemma RestOfRegion(a: Account)
    requires InPlace(a)
    ensures a.s.base == a.s.top <==> a.at == a.lim
    ensures Wrap(a.s.top - a.s.base) == a.lim - a.at
    ensures a.at < a.lim ==> a.s.base == a.at
  {
    if a.at == WORD_MOD {
      assert a.lim == WORD_MOD;
    } else {
      WrapSmall(a.at);
      if a.lim < WORD_MOD {
        WrapSmall(a.lim);
        WrapSmall(a.lim - a.at);
      }
    }
  }

  lemma StepKeepsInv(a: Account, op: BumpOp)
    requires Inv(a) && Legal(a, op)
    ensures Inv(Apply(a, op))
    ensures Apply(a, op).lim == a.lim && Apply(a, op).init == a.init
  {
    match op
    case Alloc(r) => AllocKeepsInv(a, r);
    case GetUnused => RestKeepsInv(a);
  }

  lemma AllocKeepsInv(a: Account, r: Request)
    requires Inv(a) && Legal(a, Alloc(r))
    ensures Inv(Apply(a, Alloc(r)))
  {
    hide Padding, Align, Sorted, Granted, Total, Wrap, Modest, AllocSpec;
    AllocAt(a.s, r, a.at, a.lim);
    if Granted(a.s, r) {
      var addr := AllocSpec(a.s, r).1;
      Extended(a.grants, Region(addr, r.size), a.init, a.at, addr + r.size);
      LogGrows(a.s, r);
    }
  }

  lemma RestKeepsInv(a: Account)
    requires Inv(a) && Legal(a, GetUnused)
    ensures Inv(Apply(a, GetUnused))
  {
    hide Sorted, Total, Wrap;
    RestOfRegion(a);
    if a.s.base != a.s.top {
      Extended(a.grants, Region(a.s.base, Wrap(a.s.top - a.s.base)), a.init, a.at, a.lim);
      BaseIsMultiple(a.s.base);
    }
  }

  lemma BaseIsMultiple(base: word)
    ensures base % 1 == 0
  {
  }

  lemma LogGrows(s: BumpState, r: Request)
    requires Granted(s, r)
    ensures AllocSpec(s, r).0.log ==
            if |s.log| < LOG_SIZE then s.log + [Region(AllocSpec(s, r).1, r.size)] else s.log
  {
  }

  ghost predicate Run(a: Account, ops: seq<BumpOp>, a': Account)
    decreases |ops|
  {
    if ops == [] then a' == a else Legal(a, ops[0]) && Run(Apply(a, ops[0]), ops[1..], a')
  }

  function Start(base: word, size: word): Account {
    Account(BumpState(base, Wrap(base + size), []), base, base, base + size, [], [], 0)
  }

  lemma {:induction false} RunKeepsInv(a: Account, ops: seq<BumpOp>, a': Account)
    requires Inv(a) && Run(a, ops, a')
    ensures Inv(a') && a'.lim == a.lim && a'.init == a.init
    decreases |ops|
  {
    hide Inv, Legal, Apply;
    if ops != [] {
      StepKeepsInv(a, ops[0]);
      RunKeepsInv(Apply(a, ops[0]), ops[1..], a');
    }
  }

  /** Every run from an initial region that ends at 2^32 or below: the logged regions are sorted,
      disjoint and inside what has been used, and while the log has not filled its
      sizes, the padding and the free rest add up to the initial size. */
  lemma RunAccounts(base: word, size: word, ops: seq<BumpOp>, a: Account)
    requires base + size <= WORD_MOD && Run(Start(base, size), ops, a)
    ensures base <= a.at <= base + size && a.s.base == Wrap(a.at) && a.s.top == Wrap(base + size)
    ensures Sorted(a.s.log, base, a.at)
    ensures |a.grants| <= LOG_SIZE ==> Total(a.s.log) + a.padding + Wrap(a.s.top - a.s.base) == size
    ensures forall i, j :: 0 <= i < j < |a.grants| ==> a.grants[i].base + a.grants[i].size <= a.grants[j].base
    ensures |a.aligns| == |a.grants|
    ensures forall i :: 0 <= i < |a.grants| ==> 0 < a.aligns[i] && a.grants[i].base % a.aligns[i] == 0
  {
    hide Run, Total, Wrap;
    EmptyAccount(base, size);
    RunKeepsInv(Start(base, size), ops, a);
    RestOfRegion(a);
    if |a.grants| > LOG_SIZE {
      SortedPrefix(a.grants, base, a.at, LOG_SIZE);
    }
  }

  lemma EmptyAccount(base: word, size: word)
    requires base + size <= WORD_MOD
    ensures Inv(Start(base, size)) && Start(base, size).lim == base + size && Start(base, size).init == base
  {
  }

  lemma SortedPrefix(rs: seq<Region>, lo: nat, hi: nat, n: nat)
    requires Sorted(rs, lo, hi) && n <= |rs|
    ensures Sorted(rs[..n], lo, hi)
  {
  }

  // ----- the allocator itself -----

  class PhysAllocator {
    var base: word
    var top: word
    const regions: array<Region>
    var nrRegions: nat
    var warned: bool

    ghost predicate Valid()
      reads this
    {
      regions.Length == LOG_SIZE && nrRegions <= LOG_SIZE
    }

    ghost function State(): BumpState
      requires Valid()
      reads this, regions
    {
      BumpState(base, top, regions[..nrRegions])
    }

    constructor ()
      ensures Valid() && fresh(regions)
      ensures State() == BumpState(0, 0, [])
    {
      base, top, nrRegions, warned := 0, 0, 0, false;
      regions := new Region[LOG_SIZE](_ => Region(0, 0));
    }

    /** phys_alloc_init */
    method Init(baseAddr: word, size: word)
      requires Valid()
      modifies this
      ensures Valid() && State() == Start(baseAddr, size).s
    {
      base := baseAddr;
      top := Wrap(base + size);
      nrRegions := 0;
    }

    /** phys_alloc_aligned_safe */
    method AllocAligned(size: word, align: word, safe: bool) returns (addr: word)
      requires Valid()
      modifies this, regions
      ensures Valid()
      ensures (State(), addr) == AllocSpec(old(State()), Request(size, align))
    {
      hide Align;
      ghost var s := State();
      var topSafe := top;
      if safe {
        topSafe := if topSafe < WORD_MOD then topSafe else WORD_MOD;
      }
      addr := Align(base, align);
      var need := Wrap(size + Wrap(addr - base));
      if Wrap(topSafe - base) < need {
        return INVALID;
      }
      base := Wrap(base + need);
      if nrRegions < LOG_SIZE {
        regions[nrRegions] := Region(addr, size);
        nrRegions := nrRegions + 1;
        assert regions[..nrRegions] == s.log + [Region(addr, size)];
      } else if !warned {
        warned := true;
      }
    }

    /** phys_alloc_get_unused */
    method GetUnused() returns (pBase: word, pTop: word)
      requires Valid() && (base == top || nrRegions < LOG_SIZE)
      modifies this, regions
      ensures Valid()
      ensures pBase == old(base) && pTop == old(top)
      ensures State() == UnusedSpec(old(State()))
    {
      ghost var s := State();
      pBase, pTop := base, top;
      if base == top {
        return;
      }
      regions[nrRegions] := Region(base, Wrap(top - base));
      nrRegions := nrRegions + 1;
      base := top;
      assert regions[..nrRegions] == s.log + [Region(s.base, Wrap(s.top - s.base))];
    }

    /** early_memalign. A request that cannot wrap gets NULL exactly when it does not fit or
        when it is granted at address 0 or, being empty, at the last byte, which callers
        cannot tell from failure. */
    method EarlyMemalign(alignment: word, size: word) returns (p: word)
      requires Valid()
      modifies this, regions
      ensures Valid()
      ensures State() == AllocSpec(old(State()), Request(size, alignment)).0
      ensures p == 0 <==> AllocSpec(old(State()), Request(size, alignment)).1 in {0, INVALID}
      ensures p != 0 ==> p == AllocSpec(old(State()), Request(size, alignment)).1
      ensures old(base <= top) && Modest(Request(size, alignment)) ==>
                var at := old(base) + Padding(old(base), alignment);
                && (p == 0 <==> at + size > old(top) || at == 0 || at == INVALID)
                && (p != 0 ==> old(base) <= p && p % alignment == 0 && p + size == base <= top)
    {
      hide Align, Padding;
      if base <= top && Modest(Request(size, alignment)) {
        AllocMeaning(State(), Request(size, alignment));
      }
      var addr := AllocAligned(size, alignment, true);
      if addr == INVALID {
        return 0;
      }
      p := addr;
    }
  }
}
